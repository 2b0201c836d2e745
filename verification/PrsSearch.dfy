/**
 The compressor's match search.

 Earlier positions are kept in chains, one per hash of the two bytes at the position: `hash` holds
 the newest position of each chain and `hPrev`, a ring of 8192 slots, the next older one.  `Prior` is
 what a chain step means, `BestMatch` what a search over the chain means, and `BestIsLongest` what
 the search is for.  The class keeps the two tables and refines those functions, with the overwritten
 and cut chains of the real tables.

 `text` is the input with one more byte at the end: the hash of the last position is taken over two
 bytes, so it depends on the byte behind the input.  `BestIgnoresPast` says that the value of that byte
 does not matter to any position but the last, where no match is longer than one byte.
 */
module PrsSearch {
  import opened Bytes
  import opened PrsFormat

  const HASH_SIZE := 256

  function Hash(c1: byte, c2: byte): (h: nat)
    ensures h < HASH_SIZE
  {
    ((c1 as bv8) ^ (c2 as bv8)) as nat
  }

  function HashAt(text: seq<byte>, p: nat): (h: nat)
    requires p + 1 < |text|
    ensures h < HASH_SIZE
  {
    Hash(text[p], text[p + 1])
  }

  /** The newest position before `p` with hash `h`, or -1. */
  function Prior(text: seq<byte>, h: nat, p: nat): (q: int)
    requires p < |text|
    ensures -1 <= q < p
    ensures q >= 0 ==> HashAt(text, q) == h
  {
    if p == 0 then -1 else if HashAt(text, p - 1) == h then p - 1 else Prior(text, h, p - 1)
  }

  lemma {:induction false} PriorIsNewest(text: seq<byte>, h: nat, p: nat, q: nat)
    requires q < p < |text| && HashAt(text, q) == h
    ensures q <= Prior(text, h, p)
  {
    if q < p - 1 {
      PriorIsNewest(text, h, p - 1, q);
    }
  }

  /** How many bytes from `b` on equal those from `a` on, up to the end of the input. */
  function MatchLen(text: seq<byte>, a: nat, b: nat): (n: nat)
    requires a < b < |text|
    ensures b + n < |text|
    decreases |text| - b
  {
    if b + 1 < |text| && text[b] == text[a] then MatchLen(text, a + 1, b + 1) + 1 else 0
  }

  lemma {:induction false} MatchLenAgrees(text: seq<byte>, a: nat, b: nat)
    requires a < b < |text|
    ensures text[a..a + MatchLen(text, a, b)] == text[b..b + MatchLen(text, a, b)]
    decreases |text| - b
  {
    if b + 1 < |text| && text[b] == text[a] {
      var m := MatchLen(text, a + 1, b + 1);
      MatchLenAgrees(text, a + 1, b + 1);
      assert text[a..a + 1 + m] == [text[a]] + text[a + 1..a + 1 + m];
      assert text[b..b + 1 + m] == [text[b]] + text[b + 1..b + 1 + m];
    }
  }

  /** A match of two bytes agrees in both. */
  lemma MatchOfTwo(text: seq<byte>, a: nat, b: nat)
    requires a < b < |text| && MatchLen(text, a, b) >= 2
    ensures b + 2 < |text| && text[a] == text[b] && text[a + 1] == text[b + 1]
  {
  }

  lemma {:induction false} MatchLenAtLeast(text: seq<byte>, a: nat, b: nat, n: nat)
    requires a < b && b + n < |text| && text[a..a + n] == text[b..b + n]
    ensures MatchLen(text, a, b) >= n
    decreases n
  {
    if n > 0 {
      assert text[a..a + n][0] == text[b..b + n][0];
      assert text[a + 1..a + n] == text[a..a + n][1..];
      assert text[b + 1..b + n] == text[b..b + n][1..];
      MatchLenAtLeast(text, a + 1, b + 1, n - 1);
    }
  }

  /** A match of `len` bytes at position `from`; no match when `len` is 0. */
  datatype Match = Match(len: nat, from: int)

  function Better(best: Match, len: nat, from: int): Match {
    if len > 0 && (len > best.len || len >= 256) then Match(len, from) else best
  }

  /** The search from chain element `c` on, for position `p`. */
  function Walk(text: seq<byte>, p: nat, c: int, best: Match): Match
    requires p + 1 < |text| && -1 <= c < p
    decreases c
  {
    if c < 0 || p - c > MAX_WINDOW then best
    else Walk(text, p, Prior(text, HashAt(text, p), c), Better(best, MatchLen(text, c, p), c))
  }

  function BestMatch(text: seq<byte>, p: nat): Match
    requires p + 1 < |text|
  {
    Walk(text, p, Prior(text, HashAt(text, p), p), Match(0, -1))
  }

  /** A match is real: it lies in the window and its bytes agree. */
  ghost predicate Real(text: seq<byte>, p: nat, m: Match)
    requires p < |text|
  {
    m.len > 0 ==>
      && 0 <= m.from < p && p - m.from <= MAX_WINDOW
      && m.len == MatchLen(text, m.from, p)
  }

  lemma {:induction false} WalkIsReal(text: seq<byte>, p: nat, c: int, best: Match)
    requires p + 1 < |text| && -1 <= c < p && Real(text, p, best)
    ensures Real(text, p, Walk(text, p, c, best))
    decreases c
  {
    if c >= 0 && p - c <= MAX_WINDOW {
      WalkIsReal(text, p, Prior(text, HashAt(text, p), c), Better(best, MatchLen(text, c, p), c));
    }
  }

  /** At least as good as a match of length `n`: lengths from 256 on count alike. */
  predicate AtLeast(m: Match, n: nat) {
    m.len >= n || m.len >= 256
  }

  lemma {:induction false} WalkKeeps(text: seq<byte>, p: nat, c: int, best: Match, n: nat)
    requires p + 1 < |text| && -1 <= c < p && AtLeast(best, n)
    ensures AtLeast(Walk(text, p, c, best), n)
    decreases c
  {
    if c >= 0 && p - c <= MAX_WINDOW {
      WalkKeeps(text, p, Prior(text, HashAt(text, p), c), Better(best, MatchLen(text, c, p), c), n);
    }
  }

  lemma {:induction false} WalkFinds(text: seq<byte>, p: nat, c: int, best: Match, q: nat)
    requires p + 1 < |text| && -1 <= c < p
    requires q <= c && p - q <= MAX_WINDOW && HashAt(text, q) == HashAt(text, p)
    ensures AtLeast(Walk(text, p, c, best), MatchLen(text, q, p))
    decreases c
  {
    var next := Prior(text, HashAt(text, p), c);
    var best' := Better(best, MatchLen(text, c, p), c);
    if q == c {
      WalkKeeps(text, p, next, best', MatchLen(text, q, p));
    } else {
      PriorIsNewest(text, HashAt(text, p), c, q);
      WalkFinds(text, p, next, best', q);
    }
  }

  /** The search finds a real match, and none in the window that is two bytes or longer beats it. */
  lemma BestIsLongest(text: seq<byte>, p: nat, q: nat)
    requires p + 1 < |text| && q < p && p - q <= MAX_WINDOW
    ensures Real(text, p, BestMatch(text, p))
    ensures MatchLen(text, q, p) >= 2 ==> AtLeast(BestMatch(text, p), MatchLen(text, q, p))
  {
    WalkIsReal(text, p, Prior(text, HashAt(text, p), p), Match(0, -1));
    if MatchLen(text, q, p) >= 2 {
      MatchOfTwo(text, q, p);
      var newest := Prior(text, HashAt(text, p), p);
      PriorIsNewest(text, HashAt(text, p), p, q);
      WalkFinds(text, p, newest, Match(0, -1), q);
    }
  }

  // ---------------------------------------------------------------- which match counts

  predicate InWindow(p: nat, q: nat) {
    q < p <= q + MAX_WINDOW
  }

  /** A match at `r` does not displace `best`: the longest counts, and the nearest of those; of the matches
      from 256 bytes on, the farthest. */
  predicate Loses(text: seq<byte>, p: nat, best: Match, r: nat)
    requires r < p < |text|
  {
    var n := MatchLen(text, r, p);
    if best.len < 2 then n < 2
    else if best.len >= 256 then r < best.from ==> n < 256
    else n <= best.len && (r > best.from ==> n < best.len)
  }

  /** The match at `q` is the one that counts for position `p`. */
  ghost predicate Counts(text: seq<byte>, p: nat, q: nat)
    requires p < |text|
  {
    && InWindow(p, q) && MatchLen(text, q, p) >= 2
    && forall r: nat :: InWindow(p, r) ==> Loses(text, p, Match(MatchLen(text, q, p), q), r)
  }

  /** `best` counts among the matches behind position `c`. */
  ghost predicate BestAbove(text: seq<byte>, p: nat, c: int, best: Match)
    requires p < |text|
  {
    && (best.len >= 2 ==> c < best.from && 0 <= best.from && InWindow(p, best.from) && best.len == MatchLen(text, best.from, p))
    && forall r: nat :: c < r && InWindow(p, r) ==> Loses(text, p, best, r)
  }

  /** Between two elements of the chain there is no match of two bytes. */
  lemma NoneBetween(text: seq<byte>, p: nat, c: nat, r: nat)
    requires p + 1 < |text| && c <= p && Prior(text, HashAt(text, p), c) < r < c
    ensures MatchLen(text, r, p) < 2
  {
    if MatchLen(text, r, p) >= 2 {
      MatchOfTwo(text, r, p);
      PriorIsNewest(text, HashAt(text, p), c, r);
    }
  }

  lemma BestAboveStep(text: seq<byte>, p: nat, c: nat, best: Match)
    requires p + 1 < |text| && InWindow(p, c) && BestAbove(text, p, c, best)
    ensures BestAbove(text, p, Prior(text, HashAt(text, p), c), Better(best, MatchLen(text, c, p), c))
  {
    hide Prior, MatchLen, HashAt;
    var next, best' := Prior(text, HashAt(text, p), c), Better(best, MatchLen(text, c, p), c);
    forall r: nat | next < r && InWindow(p, r)
      ensures Loses(text, p, best', r)
    {
      if r < c {
        NoneBetween(text, p, c, r);
      } else if r > c {
        assert Loses(text, p, best, r);
      }
    }
  }

  lemma {:induction false} WalkCounts(text: seq<byte>, p: nat, c: int, best: Match)
    requires p + 1 < |text| && -1 <= c < p && BestAbove(text, p, c, best)
    ensures BestAbove(text, p, -1, Walk(text, p, c, best))
    decreases c
  {
    hide Prior, MatchLen, HashAt, Better, Loses;
    if c >= 0 && p - c <= MAX_WINDOW {
      BestAboveStep(text, p, c, best);
      WalkCounts(text, p, Prior(text, HashAt(text, p), c), Better(best, MatchLen(text, c, p), c));
    }
  }

  /** The search finds the match that counts, and no match of two bytes if there is none. */
  lemma BestCounts(text: seq<byte>, p: nat)
    requires p + 1 < |text|
    ensures var m := BestMatch(text, p);
      if m.len >= 2 then m.from >= 0 && Counts(text, p, m.from) && m.len == MatchLen(text, m.from, p)
      else forall r: nat :: InWindow(p, r) ==> MatchLen(text, r, p) < 2
  {
    hide Prior, MatchLen, HashAt, Walk;
    var first := Prior(text, HashAt(text, p), p);
    forall r: nat | first < r && InWindow(p, r)
      ensures Loses(text, p, Match(0, -1), r)
    {
      NoneBetween(text, p, p, r);
    }
    WalkCounts(text, p, first, Match(0, -1));
  }

  /** At most one match counts. */
  lemma OneCounts(text: seq<byte>, p: nat, q: nat, r: nat)
    requires p < |text| && Counts(text, p, q) && Counts(text, p, r)
    ensures q == r
  {
    hide MatchLen;
    assert Loses(text, p, Match(MatchLen(text, q, p), q), r);
    assert Loses(text, p, Match(MatchLen(text, r, p), r), q);
  }

  // ---------------------------------------------------------------- the byte behind the input

  /** The same input with perhaps another byte behind it. */
  predicate SameInput(s: seq<byte>, t: seq<byte>) {
    |s| == |t| > 0 && s[..|s| - 1] == t[..|t| - 1]
  }

  lemma SameByte(s: seq<byte>, t: seq<byte>, p: nat)
    requires SameInput(s, t) && p + 1 < |s|
    ensures s[p] == t[p]
  {
    assert s[p] == s[..|s| - 1][p] && t[p] == t[..|t| - 1][p];
  }

  lemma SameHash(s: seq<byte>, t: seq<byte>, p: nat)
    requires SameInput(s, t) && p + 2 < |s|
    ensures HashAt(s, p) == HashAt(t, p)
  {
    SameByte(s, t, p);
    SameByte(s, t, p + 1);
  }

  lemma {:induction false} SameMatchLen(s: seq<byte>, t: seq<byte>, a: nat, b: nat)
    requires SameInput(s, t) && a < b < |s|
    ensures MatchLen(s, a, b) == MatchLen(t, a, b)
    decreases |s| - b
  {
    if b + 1 < |s| {
      SameByte(s, t, a);
      SameByte(s, t, b);
      SameMatchLen(s, t, a + 1, b + 1);
    }
  }

  lemma {:induction false} SamePrior(s: seq<byte>, t: seq<byte>, h: nat, p: nat)
    requires SameInput(s, t) && p + 1 < |s|
    ensures Prior(s, h, p) == Prior(t, h, p)
    decreases p
  {
    hide HashAt;
    if p > 0 {
      SameHash(s, t, p - 1);
      SamePrior(s, t, h, p - 1);
    }
  }

  lemma {:induction false} SameWalk(s: seq<byte>, t: seq<byte>, p: nat, c: int, best: Match)
    requires SameInput(s, t) && p + 2 < |s| && -1 <= c < p
    ensures Walk(s, p, c, best) == Walk(t, p, c, best)
    decreases c
  {
    hide HashAt, MatchLen;
    if c >= 0 && p - c <= MAX_WINDOW {
      SameHash(s, t, p);
      SamePrior(s, t, HashAt(s, p), c);
      SameMatchLen(s, t, c, p);
      SameWalk(s, t, p, Prior(s, HashAt(s, p), c), Better(best, MatchLen(s, c, p), c));
    }
  }

  /** Before the last position the byte behind the input changes no match; at the last position no match
      is longer than one byte, whatever it is. */
  lemma BestIgnoresPast(s: seq<byte>, t: seq<byte>, p: nat)
    requires SameInput(s, t) && p + 1 < |s|
    ensures p + 2 < |s| ==> BestMatch(s, p) == BestMatch(t, p)
    ensures p + 2 == |s| ==> BestMatch(s, p).len <= 1 && BestMatch(t, p).len <= 1
  {
    hide HashAt, Walk, Prior;
    if p + 2 < |s| {
      SameHash(s, t, p);
      SamePrior(s, t, HashAt(s, p), p);
      SameWalk(s, t, p, Prior(s, HashAt(s, p), p), Match(0, -1));
    } else {
      WalkIsReal(s, p, Prior(s, HashAt(s, p), p), Match(0, -1));
      WalkIsReal(t, p, Prior(t, HashAt(t, p), p), Match(0, -1));
    }
  }

  // ---------------------------------------------------------------- the tables

  /** A table entry for chain position `q`, as seen from position `p`: a chain may be cut where it
      leaves the window. */
  ghost predicate Agrees(entry: int, q: int, p: nat) {
    entry == q || (entry == -1 && p - q > MAX_WINDOW)
  }

  class Chains {
    const text: seq<byte>
    const base: nat              // where the input lies in memory; only its low bits matter
    const hash: array<int>
    const hPrev: array<int>
    ghost var next: nat          // the positions before this one are in the tables

    /** The low 13 bits of the address of position `p`. */
    function Slot(p: nat): (s: nat)
      ensures s < MAX_WINDOW
    {
      (base + p) % MAX_WINDOW
    }

    /** The tables as a search for position `p` may find them. */
    ghost predicate Fits(p: nat)
      reads hash, hPrev
    {
      && hash.Length == HASH_SIZE && hPrev.Length == MAX_WINDOW && hash != hPrev
      && p < |text|
      && (forall h :: 0 <= h < HASH_SIZE ==> Agrees(hash[h], Prior(text, h, p), p))
      && (forall q {:trigger Slot(q)} :: 0 <= q < p && p - q <= MAX_WINDOW ==>
            Agrees(hPrev[Slot(q)], Prior(text, HashAt(text, q), q), p))
    }

    ghost predicate Valid()
      reads this, hash, hPrev
    {
      Fits(next)
    }

    constructor (text: seq<byte>, base: nat)
      requires |text| > 0
      ensures Valid() && next == 0 && this.text == text && this.base == base
      ensures fresh(hash) && fresh(hPrev)
    {
      this.text, this.base := text, base;
      this.hash := new int[HASH_SIZE](_ => -1);
      this.hPrev := new int[MAX_WINDOW](_ => -1);
      next := 0;
    }

    lemma SlotsApart(q: nat, p: nat)
      requires q < p < q + MAX_WINDOW
      ensures Slot(q) != Slot(p)
    {
      var a, b := (base + q) / MAX_WINDOW, (base + p) / MAX_WINDOW;
      assert base + q == MAX_WINDOW * a + Slot(q) && base + p == MAX_WINDOW * b + Slot(p);
    }

    /** Puts the next position into the tables. */
    method Add(p: nat, h: nat)
      requires Valid() && p == next && p + 1 < |text| && h == HashAt(text, p)
      modifies this`next, hash, hPrev
      ensures Valid() && next == p + 1
    {
      hPrev[Slot(p)] := hash[h];
      hash[h] := p;
      next := p + 1;
      forall q {:trigger Slot(q)} | 0 <= q < p && p + 1 - q <= MAX_WINDOW
        ensures Agrees(hPrev[Slot(q)], Prior(text, HashAt(text, q), q), p + 1)
      {
        SlotsApart(q, p);
      }
    }

    /** Cuts a chain at its head. */
    method CutHead(p: nat, h: nat)
      requires Fits(p) && h < HASH_SIZE && p - Prior(text, h, p) > MAX_WINDOW
      modifies hash
      ensures Fits(p)
    {
      hash[h] := -1;
    }

    /** Cuts a chain behind position `q`. */
    method CutBehind(p: nat, q: nat)
      requires Fits(p) && q < p && p - q <= MAX_WINDOW && p - Prior(text, HashAt(text, q), q) > MAX_WINDOW
      modifies hPrev
      ensures Fits(p)
    {
      hPrev[Slot(q)] := -1;
      forall r {:trigger Slot(r)} | 0 <= r < p && p - r <= MAX_WINDOW
        ensures Agrees(hPrev[Slot(r)], Prior(text, HashAt(text, r), r), p)
      {
        if r < q {
          SlotsApart(r, q);
        } else if q < r {
          SlotsApart(q, r);
        }
      }
    }

    method MatchLength(a: nat, b: nat) returns (len: nat)
      requires a < b < |text|
      ensures len == MatchLen(text, a, b)
    {
      var s1: nat, s2: nat := b, a;
      len := 0;
      while s1 + 1 < |text| && text[s1] == text[s2]
        invariant s2 < s1 < |text|
        invariant len + MatchLen(text, s2, s1) == MatchLen(text, a, b)
      {
        len, s1, s2 := len + 1, s1 + 1, s2 + 1;
      }
    }

    /** Looks for the longest match for position `p`; `lazy` leaves the tables' contents as they are. */
    method FindLongestMatch(p: nat, lazy: bool) returns (len: nat, offset: int)
      requires p + 1 < |text|
      requires Valid() && next == p
      modifies this`next, hash, hPrev
      ensures Valid() && next == (if lazy then p else p + 1)
      ensures len == BestMatch(text, p).len
      ensures len > 0 ==> offset == BestMatch(text, p).from - p && -MAX_WINDOW <= offset < 0
    {
      WalkIsReal(text, p, Prior(text, HashAt(text, p), p), Match(0, -1));
      len, offset := 0, 0;
      var h := HashAt(text, p);
      var ent := hash[h];
      if ent != -1 && p - ent <= MAX_WINDOW {
        len, offset := FollowChain(p, ent);
      } else if ent != -1 {
        CutHead(p, h);
      }
      if !lazy {
        Add(p, h);
      }
    }

    /** The chain from its newest element on. */
    method FollowChain(p: nat, first: int) returns (longest: nat, offset: int)
      requires p + 1 < |text| && Fits(p)
      requires 0 <= first < p && p - first <= MAX_WINDOW && first == Prior(text, HashAt(text, p), p)
      modifies hPrev
      ensures Fits(p)
      ensures longest == BestMatch(text, p).len
      ensures longest > 0 ==> offset == BestMatch(text, p).from - p
    {
      longest := 0;
      var ent, from := first, -1;
      while ent != -1
        invariant Fits(p) && -1 <= ent < p
        invariant ent >= 0 ==> p - ent <= MAX_WINDOW && HashAt(text, ent) == HashAt(text, p)
        invariant Walk(text, p, ent, Match(longest, from)) == BestMatch(text, p)
        decreases ent
      {
        var len := MatchLength(ent, p);
        if len > 0 && (len > longest || len >= 256) {
          longest, from := len, ent;
        }
        var older := hPrev[Slot(ent)];
        assert Agrees(older, Prior(text, HashAt(text, ent), ent), p);
        if older != -1 && p - older > MAX_WINDOW {
          CutBehind(p, ent);
          older := -1;
        }
        ent := older;
      }
      offset := from - p;
    }
  }
}
