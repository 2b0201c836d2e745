/**
 The PRS compressor: the bit writer, the lazy parse, and the whole of prs_compress and prs_archive.
 */
module PrsEncoder {
  import opened Bytes
  import opened PrsStream
  import opened PrsFormat
  import opened PrsSearch

  // ---------------------------------------------------------------- the parse

  /** A match is kept although the next position has a longer one, when it is a near copy and the
      longer one is far and gains less than three bytes. */
  predicate KeepsShort(p: nat, m: Match, lazy: Match) {
    2 <= m.len <= 5 && lazy.from - (p + 1) < m.from - p && m.from - p >= -256 &&
    lazy.from - (p + 1) < -256 && lazy.len - m.len < 3
  }

  /** The token for a match at position `p`. */
  function TokenFor(x: byte, p: nat, m: Match): Token
    requires m.from < p
  {
    var dist: nat := p - m.from;
    if 2 <= m.len <= 5 && dist <= 256 then ShortCopy(m.len, dist)
    else if 3 <= m.len <= 9 then LongCopy(m.len, dist)
    else if m.len > 9 then ExtCopy(if m.len > 256 then 256 else m.len, dist)
    else Literal(x)
  }

  /** The match the compressor takes at position `p`, if any; `text` is the input and one byte more. */
  function Pick(text: seq<byte>, p: nat): (m: Match)
    requires p + 2 < |text|
    ensures m.from < p
    ensures m.len > 0 ==> 0 <= m.from && p - m.from <= MAX_WINDOW && p + m.len < |text|
  {
    WalkIsReal(text, p, Prior(text, HashAt(text, p), p), Match(0, -1));
    var m, lazy := BestMatch(text, p), BestMatch(text, p + 1);
    if m.len == 0 || (lazy.len > m.len && !KeepsShort(p, m, lazy)) then Match(0, -1) else m
  }

  lemma PickIsReal(text: seq<byte>, p: nat)
    requires p + 2 < |text|
    ensures Real(text, p, Pick(text, p))
  {
    WalkIsReal(text, p, Prior(text, HashAt(text, p), p), Match(0, -1));
  }

  /** The token the compressor emits at position `p`. */
  function Choose(text: seq<byte>, p: nat): (t: Token)
    requires p + 2 < |text|
    ensures t.Valid() && p + t.Span() < |text| && Applies(t, p)
  {
    TokenFor(text[p], p, Pick(text, p))
  }

  /** The tokens for the input from position `p` on. */
  function Parse(text: seq<byte>, p: nat): Tokens
    requires p < |text|
    decreases |text| - p
  {
    if p + 2 < |text| then
      var t := Choose(text, p);
      More(t, Parse(text, p + t.Span()))
    else if p + 1 < |text| then More(Literal(text[p]), Stop)
    else Stop
  }

  function Literals(src: seq<byte>): Tokens {
    if src == [] then Stop else More(Literal(src[0]), Literals(src[1..]))
  }

  /** All tokens of a nonempty input.  Any byte behind it leads to the same ones, so zero will do. */
  function TokensOf(src: seq<byte>): Tokens
    requires src != []
  {
    if |src| <= 3 then Literals(src)
    else More(Literal(src[0]), More(Literal(src[1]), Parse(src + [0], 2)))
  }

  lemma {:induction false} ParseIgnoresPast(s: seq<byte>, t: seq<byte>, p: nat)
    requires SameInput(s, t) && p < |s|
    ensures Parse(s, p) == Parse(t, p)
    decreases |s| - p
  {
    hide BestMatch, TokenFor;
    if p + 2 < |s| {
      BestIgnoresPast(s, t, p);
      BestIgnoresPast(s, t, p + 1);
      SameByte(s, t, p);
      assert Choose(s, p) == Choose(t, p);
      ParseIgnoresPast(s, t, p + Choose(s, p).Span());
    } else if p + 1 < |s| {
      SameByte(s, t, p);
    }
  }

  /** The byte behind the input, which the hash of the last pair reads, changes nothing. */
  lemma PastIsIgnored(src: seq<byte>, past: byte)
    requires |src| > 3
    ensures TokensOf(src) == More(Literal(src[0]), More(Literal(src[1]), Parse(src + [past], 2)))
  {
    assert (src + [past])[..|src|] == src == (src + [0])[..|src|];
    ParseIgnoresPast(src + [past], src + [0], 2);
  }

  // ---------------------------------------------------------------- what the parse means

  /** Every token repeats the input at its place. */
  lemma {:induction false} CopiesInput(text: seq<byte>, dist: nat, len: nat, p: nat)
    requires 1 <= dist <= p && p + len <= |text|
    requires text[p - dist..p - dist + len] == text[p..p + len]
    ensures CopyBack(text[..p], dist, len) == text[..p + len]
    decreases len
  {
    if len > 0 {
      assert text[p - dist] == text[p - dist..p - dist + len][0] == text[p..p + len][0] == text[p];
      assert text[..p] + [text[p]] == text[..p + 1];
      assert text[p + 1 - dist..p + len - dist] == text[p - dist..p - dist + len][1..];
      assert text[p + 1..p + len] == text[p..p + len][1..];
      CopiesInput(text, dist, len - 1, p + 1);
    }
  }

  lemma SlicesAgree(text: seq<byte>, a: nat, b: nat, n: nat, k: nat)
    requires k <= n && a + n <= |text| && b + n <= |text| && text[a..a + n] == text[b..b + n]
    ensures text[a..a + k] == text[b..b + k]
  {
    assert text[a..a + k] == text[a..a + n][..k];
    assert text[b..b + k] == text[b..b + n][..k];
  }

  lemma TokenRepeats(text: seq<byte>, p: nat, m: Match)
    requires p + 2 < |text| && m.from < p && Real(text, p, m)
    requires Applies(TokenFor(text[p], p, m), p)
    ensures var t := TokenFor(text[p], p, m);
            p + t.Span() < |text| && Apply(text[..p], t) == text[..p + t.Span()]
  {
    var t := TokenFor(text[p], p, m);
    if t.Literal? {
      assert text[..p] + [text[p]] == text[..p + 1];
    } else {
      MatchLenAgrees(text, m.from, p);
      SlicesAgree(text, m.from, p, m.len, t.len);
      CopiesInput(text, t.dist, t.len, p);
    }
  }

  lemma ChooseRepeats(text: seq<byte>, p: nat)
    requires p + 2 < |text|
    ensures Apply(text[..p], Choose(text, p)) == text[..p + Choose(text, p).Span()]
  {
    PickIsReal(text, p);
    TokenRepeats(text, p, Pick(text, p));
  }

  /** `ts` stand for `all`, when `out` is there already. */
  ghost predicate StandsFor(ts: Tokens, out: seq<byte>, all: seq<byte>) {
    AllValid(ts) && Reach(ts, |out|) && Expand(ts, out) == all
  }

  lemma StandsMore(t: Token, ts: Tokens, out: seq<byte>, all: seq<byte>)
    requires t.Valid() && Applies(t, |out|) && StandsFor(ts, Apply(out, t), all)
    ensures StandsFor(More(t, ts), out, all)
  {
    hide Apply;
  }

  lemma {:induction false} ParseExpands(text: seq<byte>, p: nat)
    requires p < |text|
    ensures StandsFor(Parse(text, p), text[..p], text[..|text| - 1])
    decreases |text| - p
  {
    hide StandsFor, Choose, Apply;
    if p + 2 < |text| {
      var t := Choose(text, p);
      ChooseRepeats(text, p);
      ParseExpands(text, p + t.Span());
      StandsMore(t, Parse(text, p + t.Span()), text[..p], text[..|text| - 1]);
    } else {
      NothingMore(text[..|text| - 1]);
      if p + 1 < |text| {
        OneByteMore(text[..p], text[p]);
        assert text[..p] + [text[p]] == text[..p + 1];
        StandsMore(Literal(text[p]), Stop, text[..p], text[..|text| - 1]);
      }
    }
  }

  lemma NothingMore(out: seq<byte>)
    ensures StandsFor(Stop, out, out)
  {
  }

  lemma OneByteMore(out: seq<byte>, x: byte)
    ensures Apply(out, Literal(x)) == out + [x]
  {
  }

  lemma {:induction false} LiteralsExpand(src: seq<byte>, out: seq<byte>)
    ensures StandsFor(Literals(src), out, out + src)
    ensures UntilEnd(Literals(src)) == Literals(src) && !HasEnd(Literals(src))
    decreases |src|
  {
    if src == [] {
      assert out + src == out;
    } else {
      LiteralsExpand(src[1..], out + [src[0]]);
      assert (out + [src[0]]) + src[1..] == out + src;
    }
  }

  lemma TwoMore(x: byte, y: byte, ts: Tokens, all: seq<byte>)
    requires StandsFor(ts, [x, y], all)
    ensures StandsFor(More(Literal(x), More(Literal(y), ts)), [], all)
  {
    hide StandsFor;
    OneByteMore([], x);
    OneByteMore([x], y);
    assert [] + [x] == [x] && [x] + [y] == [x, y];
    StandsMore(Literal(y), ts, [x], all);
    StandsMore(Literal(x), More(Literal(y), ts), [], all);
  }

  /** The tokens of an input stand for the input. */
  lemma TokensExpand(src: seq<byte>)
    requires src != []
    ensures StandsFor(TokensOf(src), [], src)
  {
    if |src| <= 3 {
      LiteralsExpand(src, []);
      assert [] + src == src;
    } else {
      hide StandsFor, Parse;
      var text := src + [0];
      ParseExpands(text, 2);
      assert text[..2] == [src[0], src[1]] && text[..|text| - 1] == src;
      TwoMore(src[0], src[1], Parse(text, 2), src);
    }
  }

  /** Cutting a token list short at an end-like token loses the bytes from there on. */
  lemma {:induction false} UntilEndIsShorter(ts: Tokens, out: seq<byte>)
    requires AllValid(ts) && Reach(ts, |out|)
    ensures Reach(UntilEnd(ts), |out|)
    ensures Expand(UntilEnd(ts), out) <= Expand(ts, out)
    ensures HasEnd(ts) <==> |Expand(UntilEnd(ts), out)| < |Expand(ts, out)|
  {
    UntilEndReach(ts, |out|);
    if ts.More? {
      if ts.head.LooksLikeEnd() {
        ExpandExtends(ts, out);
      } else {
        UntilEndIsShorter(ts.tail, Apply(out, ts.head));
      }
    }
  }

  /** The compressor meets the one case its format cannot express: a copy of ten bytes or more from
      exactly 8192 back. */
  predicate MeetsWindowEdge(src: seq<byte>)
    requires src != []
  {
    HasEnd(TokensOf(src))
  }

  /** The compressed file. */
  function Compressed(src: seq<byte>): seq<byte>
    requires src != []
  {
    TokensExpand(src);
    Encode(TokensOf(src))
  }

  /** Decompressing a compressed input gives the input back exactly when the compressor did not emit
      a long copy from the far edge of the window; otherwise the output is cut short there. */
  lemma RoundTrip(src: seq<byte>)
    requires src != []
    ensures Decompress(Compressed(src), None) == Ok(src) <==> !MeetsWindowEdge(src)
    ensures MeetsWindowEdge(src) ==>
      var d := Decompress(Compressed(src), None); d.Ok? && d.value < src
  {
    var ts := TokensOf(src);
    TokensExpand(src);
    DecompressesEncoding(ts);
    UntilEndIsShorter(ts, []);
    var d := Expand(UntilEnd(ts), []);
    if |d| == |src| {
      assert d == src[..|d|] == src;
    }
  }

  // ---------------------------------------------------------------- when the compressor copies

  /** A match at `q` is worth a copy: three bytes anywhere in the window, or two bytes nearby. */
  predicate Worth(text: seq<byte>, p: nat, q: nat)
    requires p < |text|
  {
    InWindow(p, q) && (MatchLen(text, q, p) >= 3 || (MatchLen(text, q, p) >= 2 && p - q <= 256))
  }

  ghost predicate Covered(text: seq<byte>, p: nat)
    requires p < |text|
  {
    exists q: nat :: Worth(text, p, q)
  }

  /** The match at `r` for the next position is better than that at `q` for this one: it is longer, and
      not a far one that gains less than three bytes on a short near one. */
  predicate Gains(text: seq<byte>, p: nat, q: nat, r: nat)
    requires q < p && r < p + 1 < |text|
  {
    var now, next := MatchLen(text, q, p), MatchLen(text, r, p + 1);
    next > now && !(now <= 5 && p - q <= 256 && p + 1 - r > 256 && next < now + 3)
  }

  /** The copy is put off by one byte. */
  ghost predicate PutOff(text: seq<byte>, p: nat)
    requires p + 1 < |text|
  {
    exists q: nat, r: nat :: Counts(text, p, q) && Counts(text, p + 1, r) && Gains(text, p, q, r)
  }

  /** The token that copies the match at `q`. */
  ghost predicate CopyOf(text: seq<byte>, p: nat, q: nat, t: Token)
    requires q < p < |text|
  {
    var n, d := MatchLen(text, q, p), p - q;
    if n <= 5 && d <= 256 then t == ShortCopy(n, d)
    else if n <= 9 then t == LongCopy(n, d)
    else t == ExtCopy(if n > 256 then 256 else n, d)
  }

  /** The rule for one token, in terms of the matches that there are. */
  ghost predicate Ruled(text: seq<byte>, p: nat, t: Token)
    requires p + 2 < |text|
  {
    if Covered(text, p) && !PutOff(text, p) then exists q: nat :: Counts(text, p, q) && CopyOf(text, p, q, t)
    else t == Literal(text[p])
  }

  /** The match that counts is worth a copy if any match is. */
  lemma CountsIsWorth(text: seq<byte>, p: nat, q: nat)
    requires p < |text| && Counts(text, p, q)
    ensures Covered(text, p) <==> Worth(text, p, q)
  {
    hide MatchLen;
    if Covered(text, p) {
      var r: nat :| Worth(text, p, r);
      assert Loses(text, p, Match(MatchLen(text, q, p), q), r);
    }
  }

  /** Which of the two matches is taken, when both positions have one. */
  lemma PutOffIs(text: seq<byte>, p: nat, q: nat)
    requires p + 2 < |text| && Counts(text, p, q)
    ensures var lazy := BestMatch(text, p + 1);
      PutOff(text, p) <==> lazy.len > MatchLen(text, q, p) && !KeepsShort(p, Match(MatchLen(text, q, p), q), lazy)
  {
    hide MatchLen, BestMatch, Loses;
    var lazy := BestMatch(text, p + 1);
    BestCounts(text, p + 1);
    if PutOff(text, p) {
      var q', r: nat :| Counts(text, p, q') && Counts(text, p + 1, r) && Gains(text, p, q', r);
      OneCounts(text, p, q, q');
      OneCounts(text, p + 1, r, lazy.from);
    }
    if lazy.len > MatchLen(text, q, p) && !KeepsShort(p, Match(MatchLen(text, q, p), q), lazy) {
      assert Gains(text, p, q, lazy.from);
    }
  }

  /** Every token follows the rule. */
  lemma ChooseRuled(text: seq<byte>, p: nat)
    requires p + 2 < |text|
    ensures Ruled(text, p, Choose(text, p))
  {
    hide MatchLen, BestMatch, Loses, Counts, KeepsShort, PutOff, Covered;
    var m := BestMatch(text, p);
    BestCounts(text, p);
    if m.len >= 2 {
      CountsIsWorth(text, p, m.from);
      PutOffIs(text, p, m.from);
      if Covered(text, p) && !PutOff(text, p) {
        assert CopyOf(text, p, m.from, Choose(text, p));
      }
    } else {
      NotCovered(text, p);
    }
  }

  lemma NotCovered(text: seq<byte>, p: nat)
    requires p < |text| && forall r: nat :: InWindow(p, r) ==> MatchLen(text, r, p) < 2
    ensures !Covered(text, p)
  {
  }

  /** A match of more than `n` bytes. */
  predicate LongerAt(text: seq<byte>, p: nat, n: nat, r: nat)
    requires p < |text|
  {
    InWindow(p, r) && MatchLen(text, r, p) > n
  }

  ghost predicate LongerCounts(text: seq<byte>, p: nat, n: nat, r: nat)
    requires p < |text|
  {
    LongerAt(text, p, n, r) && Counts(text, p, r)
  }

  /** Up to 255 bytes, a longer match counts for a position exactly when there is a longer match. */
  lemma LongerIsThere(text: seq<byte>, p: nat, n: nat)
    requires p + 1 < |text| && 1 <= n < 256
    ensures (exists r: nat :: LongerCounts(text, p, n, r)) <==> exists r: nat :: LongerAt(text, p, n, r)
  {
    hide MatchLen, BestMatch;
    if r: nat :| LongerAt(text, p, n, r) {
      BestCounts(text, p);
      var best := BestMatch(text, p).from;
      assert Loses(text, p, Match(MatchLen(text, best, p), best), r);
      assert LongerCounts(text, p, n, best);
    }
  }

  /** A copy takes the longest match there is, up to 256 bytes. */
  lemma CopyIsLongest(text: seq<byte>, p: nat, q: nat, t: Token)
    requires p < |text| && Counts(text, p, q) && CopyOf(text, p, q, t)
    ensures !t.Literal? && t.len <= 256 && t.len <= MatchLen(text, q, p)
    ensures forall r: nat :: InWindow(p, r) ==> MatchLen(text, r, p) <= t.len || t.len == 256
  {
    hide MatchLen;
    forall r: nat | InWindow(p, r)
      ensures MatchLen(text, r, p) <= t.len || t.len == 256
    {
      assert Loses(text, p, Match(MatchLen(text, q, p), q), r);
    }
  }

  /** All tokens from position `p` on follow the rule; the last byte is a literal. */
  ghost predicate AllRuled(text: seq<byte>, p: nat, ts: Tokens)
    requires p < |text|
    decreases ts
  {
    if p + 2 < |text| then
      && ts.More? && Ruled(text, p, ts.head) && p + ts.head.Span() < |text|
      && AllRuled(text, p + ts.head.Span(), ts.tail)
    else ts == if p + 1 < |text| then More(Literal(text[p]), Stop) else Stop
  }

  lemma {:induction false} ParseRuled(text: seq<byte>, p: nat)
    requires p < |text|
    ensures AllRuled(text, p, Parse(text, p))
    decreases |text| - p
  {
    hide Ruled, Choose;
    if p + 2 < |text| {
      ChooseRuled(text, p);
      ParseRuled(text, p + Choose(text, p).Span());
    }
  }

  /** The tokens of an input: up to three bytes are literals, and so are the first two bytes of a longer
      one; behind them every token follows the rule, whatever byte lies behind the input. */
  lemma TokensRuled(src: seq<byte>, past: byte)
    requires src != []
    ensures |src| <= 3 ==> OnlyLiterals(TokensOf(src))
    ensures |src| > 3 ==>
      && TokensOf(src).More? && TokensOf(src).head == Literal(src[0])
      && TokensOf(src).tail.More? && TokensOf(src).tail.head == Literal(src[1])
      && AllRuled(src + [past], 2, TokensOf(src).tail.tail)
  {
    hide AllRuled, Parse, Literals, OnlyLiterals;
    if |src| <= 3 {
      LiteralsSpans(src);
    } else {
      PastIsIgnored(src, past);
      ParseRuled(src + [past], 2);
    }
  }

  // ---------------------------------------------------------------- how long the output can be

  function MaxCompressedSize(len: nat): nat {
    len + 2 + (len + 2) / 8 + (if (len + 2) % 8 != 0 then 1 else 0)
  }

  /** No token takes more than nine bits for each byte it stands for; a literal takes exactly that. */
  lemma TokenWeight(t: Token)
    requires t.Valid() && (t.ExtCopy? ==> t.len >= 10)
    ensures Weight(Events(t)) <= 9 * t.Span()
    ensures t.Literal? ==> Weight(Events(t)) == 9
  {
    var evs := Events(t);
    WeightIs(evs);
  }

  /** The weight of a short event list, spelled out. */
  lemma WeightIs(evs: seq<Event>)
    requires |evs| <= 5
    ensures Weight(evs) ==
      (if |evs| > 0 then W(evs[0]) else 0) + (if |evs| > 1 then W(evs[1]) else 0) +
      (if |evs| > 2 then W(evs[2]) else 0) + (if |evs| > 3 then W(evs[3]) else 0) +
      (if |evs| > 4 then W(evs[4]) else 0)
    decreases |evs|
  {
    if evs != [] {
      WeightIs(evs[..|evs| - 1]);
    }
  }

  function W(e: Event): nat {
    if e.Bit? then 1 else 8
  }

  function Spans(ts: Tokens): nat {
    match ts
    case Stop => 0
    case More(t, rest) => t.Span() + Spans(rest)
  }

  /** The encoder gives a length byte of its own only to copies of ten bytes and more. */
  ghost predicate Thrifty(ts: Tokens) {
    ts.More? ==> ts.head.Valid() && (ts.head.ExtCopy? ==> ts.head.len >= 10) && Thrifty(ts.tail)
  }

  ghost predicate OnlyLiterals(ts: Tokens) {
    ts.More? ==> ts.head.Literal? && OnlyLiterals(ts.tail)
  }

  lemma {:induction false} StreamWeightBound(ts: Tokens)
    requires Thrifty(ts)
    ensures AllValid(ts)
    ensures Weight(StreamEvents(ts)) <= 9 * Spans(ts) + 18
    ensures OnlyLiterals(ts) ==> Weight(StreamEvents(ts)) == 9 * Spans(ts) + 18
  {
    match ts
    case Stop => WeightOfEnd();
    case More(t, rest) =>
      TokenWeight(t);
      StreamWeightBound(rest);
      WeightConcat(Events(t), StreamEvents(rest));
  }

  lemma {:induction false} ParseSpans(text: seq<byte>, p: nat)
    requires p < |text|
    ensures Thrifty(Parse(text, p)) && Spans(Parse(text, p)) == |text| - 1 - p
    decreases |text| - p
  {
    if p + 2 < |text| {
      ParseSpans(text, p + Choose(text, p).Span());
    }
  }

  lemma {:induction false} LiteralsSpans(src: seq<byte>)
    ensures Thrifty(Literals(src)) && Spans(Literals(src)) == |src| && OnlyLiterals(Literals(src))
  {
    if src != [] {
      LiteralsSpans(src[1..]);
    }
  }

  lemma TokensSpans(src: seq<byte>)
    requires src != []
    ensures Thrifty(TokensOf(src)) && Spans(TokensOf(src)) == |src|
  {
    if |src| <= 3 {
      LiteralsSpans(src);
    } else {
      ParseSpans(src + [0], 2);
    }
  }

  /** The compressed file never exceeds the promised maximum, which is the size of the same input
      stored as literals. */
  lemma CompressedSize(src: seq<byte>)
    requires src != []
    ensures |Compressed(src)| <= MaxCompressedSize(|src|)
    ensures AllValid(Literals(src)) && |Encode(Literals(src))| == MaxCompressedSize(|src|)
  {
    hide TokensOf, StreamEvents, Weight, Pack, Literals, Thrifty, Spans, OnlyLiterals, AllValid;
    TokensSpans(src);
    StreamWeightBound(TokensOf(src));
    PackedSize(StreamEvents(TokensOf(src)));
    LiteralsSpans(src);
    StreamWeightBound(Literals(src));
    PackedSize(StreamEvents(Literals(src)));
  }

  /** Storing as literals always survives the round trip. */
  lemma ArchiveRoundTrip(src: seq<byte>)
    ensures AllValid(Literals(src)) && Decompress(Encode(Literals(src)), None) == Ok(src)
  {
    LiteralsExpand(src, []);
    DecompressesEncoding(Literals(src));
    assert [] + src == src;
  }
}
