/** Experience of Blue Burst characters: levels, stats, and why it does not matter how an award is
    split. */
module Experience {

  const WORD: nat := 0x1_0000_0000
  const TOP: nat := 199

  datatype Stats = Stats(atp: nat, mst: nat, evp: nat, hp: nat, dfp: nat, ata: nat)

  /** A row of the level table: the stats that the level adds, and the experience that it needs. */
  datatype Entry = Entry(gain: Stats, exp: nat)

  type Table = t: seq<Entry> | |t| == 200 witness seq(200, _ => Entry(Stats(0, 0, 0, 0, 0, 0), 0))

  datatype Character = Character(level: nat, exp: nat, stats: Stats)

  /** Stats are 16 bits wide. */
  function Plus(a: Stats, b: Stats): Stats {
    Stats((a.atp + b.atp) % 0x10000, (a.mst + b.mst) % 0x10000, (a.evp + b.evp) % 0x10000,
          (a.hp + b.hp) % 0x10000, (a.dfp + b.dfp) % 0x10000, (a.ata + b.ata) % 0x10000)
  }

  /** The levels that a total reaches from `level` on, one after the other. */
  function Climb(t: Table, total: nat, level: nat, stats: Stats): (nat, Stats)
    decreases TOP - level
  {
    if level >= TOP || total < t[level + 1].exp then (level, stats)
    else Climb(t, total, level + 1, Plus(stats, t[level + 1].gain))
  }

  function Given(t: Table, c: Character, exp: nat): Character {
    if c.level >= TOP then c
    else
      var total := (c.exp + exp) % WORD;
      var (level, stats) := Climb(t, total, c.level, c.stats);
      Character(level, total, stats)
  }

  /** What the client is told. */
  datatype Notice = GotExp(award: nat) | GotLevel(level: nat, stats: Stats)

  class Player {
    const table: Table
    var sent: seq<Notice>
    var level: nat
    var exp: nat
    var stats: Stats

    constructor (table: Table, c: Character)
      ensures this.table == table && State() == c && sent == []
    {
      this.table, sent := table, [];
      level, exp, stats := c.level, c.exp, c.stats;
    }

    function State(): Character
      reads this
    {
      Character(level, exp, stats)
    }

    method GiveStats(ent: Entry)
      modifies this`stats
      ensures stats == Plus(old(stats), ent.gain)
    {
      var tmp := (stats.atp + ent.gain.atp) % 0x10000;
      stats := stats.(atp := tmp);
      tmp := (stats.mst + ent.gain.mst) % 0x10000;
      stats := stats.(mst := tmp);
      tmp := (stats.evp + ent.gain.evp) % 0x10000;
      stats := stats.(evp := tmp);
      tmp := (stats.hp + ent.gain.hp) % 0x10000;
      stats := stats.(hp := tmp);
      tmp := (stats.dfp + ent.gain.dfp) % 0x10000;
      stats := stats.(dfp := tmp);
      tmp := (stats.ata + ent.gain.ata) % 0x10000;
      stats := stats.(ata := tmp);
    }

    /** `bb` says whether it is a Blue Burst client with a character, the others whether the packets can
        be sent. */
    method ClientGiveExp(award: nat, bb: bool, expGoes: bool, levelGoes: bool) returns (rv: int)
      modifies this
      ensures !bb ==> rv == -1 && State() == old(State()) && sent == old(sent)
      ensures bb && old(level) >= TOP ==> rv == 0 && State() == old(State()) && sent == old(sent)
      ensures bb && old(level) < TOP && !expGoes ==>
        rv == -1 && State() == old(State()).(exp := (old(exp) + award) % WORD) && sent == old(sent)
      ensures bb && old(level) < TOP && expGoes ==>
        && State() == Given(table, old(State()), award)
        && rv == (if level > old(level) && !levelGoes then -1 else 0)
        && sent == old(sent) + [GotExp(award)] + (if level > old(level) && levelGoes then [GotLevel(level, stats)] else [])
    {
      hide Plus;
      if !bb {
        return -1;
      }
      if level >= 199 {
        return 0;
      }
      var total := (exp + award) % WORD;
      exp := total;
      if !expGoes {
        return -1;
      }
      sent := sent + [GotExp(award)];
      var l, needLevelUp := level, false;
      var more := true;
      while more
        invariant l <= TOP && exp == total && level == old(level) && (more ==> l < TOP) && (l > level <==> needLevelUp)
        invariant sent == old(sent) + [GotExp(award)]
        invariant l >= level && Climb(table, total, level, old(stats)) == Climb(table, total, l, stats)
        invariant !more ==> Climb(table, total, l, stats) == (l, stats)
        decreases TOP - l, more
      {
        var ent := table[l + 1];
        more := false;
        if total >= ent.exp {
          needLevelUp := true;
          GiveStats(ent);
          l := l + 1;
          more := l < 199;
        }
      }
      if needLevelUp {
        level := l;
        if !levelGoes {
          return -1;
        }
        sent := sent + [GotLevel(level, stats)];
      }
      rv := 0;
    }
  }

  // ---------------------------------------------------------------- how an award is split

  /** A larger total climbs through every level that a smaller one reaches. */
  lemma {:induction false} ClimbsFurther(t: Table, a: nat, b: nat, level: nat, stats: Stats)
    requires a <= b
    ensures var (l, s) := Climb(t, a, level, stats);
      Climb(t, b, level, stats) == Climb(t, b, l, s)
    decreases TOP - level
  {
    hide Plus;
    if level < TOP && a >= t[level + 1].exp {
      ClimbsFurther(t, a, b, level + 1, Plus(stats, t[level + 1].gain));
    }
  }

  /** A smaller total, met afterwards, climbs no further. */
  lemma {:induction false} ClimbsNoFurther(t: Table, a: nat, b: nat, level: nat, stats: Stats)
    requires b <= a
    ensures var (l, s) := Climb(t, a, level, stats);
      Climb(t, b, l, s) == (l, s)
    decreases TOP - level
  {
    hide Plus;
    if level < TOP && a >= t[level + 1].exp {
      ClimbsNoFurther(t, a, b, level + 1, Plus(stats, t[level + 1].gain));
    }
  }

  predicate SameGrowth(x: Character, y: Character) {
    x.level == y.level && x.stats == y.stats
  }

  /** Awards one after the other. */
  function Awards(t: Table, c: Character, parts: seq<nat>): Character
    decreases |parts|
  {
    if parts == [] then c else Given(t, Awards(t, c, parts[..|parts| - 1]), parts[|parts| - 1])
  }

  function Whole(parts: seq<nat>): nat {
    if parts == [] then 0 else Whole(parts[..|parts| - 1]) + parts[|parts| - 1]
  }

  /** The total after all awards, in 32 bits. */
  function Total(exp: nat, parts: seq<nat>): nat {
    (exp + Whole(parts)) % WORD
  }

  /** The largest total that is passed on the way. */
  function Peak(exp: nat, parts: seq<nat>): (m: nat)
    requires parts != []
    ensures m >= Total(exp, parts)
    decreases |parts|
  {
    var before := parts[..|parts| - 1];
    if before == [] || Peak(exp, before) <= Total(exp, parts) then Total(exp, parts) else Peak(exp, before)
  }

  /** The peak is the total after some of the awards, and none is larger. */
  lemma {:induction false} PeakIsLargest(exp: nat, parts: seq<nat>) returns (at: nat)
    requires parts != []
    ensures 0 < at <= |parts| && Peak(exp, parts) == Total(exp, parts[..at])
    ensures forall k :: 0 < k <= |parts| ==> Total(exp, parts[..k]) <= Peak(exp, parts)
    decreases |parts|
  {
    hide Total;
    var n := |parts| - 1;
    var before := parts[..n];
    at := n + 1;
    assert parts[..at] == parts;
    if before != [] {
      var at0 := PeakIsLargest(exp, before);
      assert forall k :: 0 <= k <= n ==> before[..k] == parts[..k];
      if Peak(exp, before) > Total(exp, parts) {
        at := at0;
      }
    }
  }

  lemma AddInWord(x: nat, y: nat)
    ensures (x % WORD + y) % WORD == (x + y) % WORD
  {
  }

  /** Awards in a row climb as far as their largest total does; the total of a character who has not
      reached the last level is the sum. */
  lemma {:induction false} AwardsClimb(t: Table, c: Character, parts: seq<nat>)
    requires c.level < TOP && parts != []
    ensures var r := Awards(t, c, parts);
      && Climb(t, Peak(c.exp, parts), c.level, c.stats) == (r.level, r.stats)
      && (r.level < TOP ==> r.exp == Total(c.exp, parts))
    decreases |parts|
  {
    hide Climb, Peak;
    var n := |parts| - 1;
    var before, last := parts[..n], Total(c.exp, parts);
    if n == 0 {
      assert Awards(t, c, before) == c && Whole(before) == 0;
      assert Peak(c.exp, parts) == last by { OnePeak(c.exp, parts); }
    } else {
      AwardsClimb(t, c, before);
      var high, was := Peak(c.exp, before), Awards(t, c, before);
      AddInWord(c.exp + Whole(before), parts[n]);
      NextPeak(c.exp, parts);
      if high <= last {
        ClimbsFurther(t, high, last, c.level, c.stats);
        AtTop(t, last, was.level, was.stats);
      } else {
        ClimbsNoFurther(t, high, last, c.level, c.stats);
      }
    }
  }

  lemma OnePeak(exp: nat, parts: seq<nat>)
    requires |parts| == 1
    ensures Peak(exp, parts) == Total(exp, parts)
  {
  }

  lemma NextPeak(exp: nat, parts: seq<nat>)
    requires |parts| > 1
    ensures var high := Peak(exp, parts[..|parts| - 1]);
      Peak(exp, parts) == if high <= Total(exp, parts) then Total(exp, parts) else high
  {
  }

  lemma AtTop(t: Table, total: nat, level: nat, stats: Stats)
    ensures level >= TOP ==> Climb(t, total, level, stats) == (level, stats)
  {
  }

  /** A table all of whose levels are met at one total. */
  function StepTable(at: nat): Table {
    seq(200, _ => Entry(Stats(0, 0, 0, 0, 0, 0), at))
  }

  lemma {:induction false} StepTableJumps(at: nat, total: nat, level: nat, stats: Stats)
    requires level <= TOP
    ensures Climb(StepTable(at), total, level, stats).0 == if total >= at then TOP else level
    decreases TOP - level
  {
    hide Plus;
    if level < TOP && total >= at {
      StepTableJumps(at, total, level + 1, Plus(stats, StepTable(at)[level + 1].gain));
    }
  }

  lemma {:induction false} TopStays(t: Table, c: Character, parts: seq<nat>)
    requires c.level >= TOP
    ensures Awards(t, c, parts) == c
    decreases |parts|
  {
    if parts != [] {
      TopStays(t, c, parts[..|parts| - 1]);
    }
  }

  /** However an award is split, the character grows as by one award of the whole, in every table,
      exactly when no total on the way exceeds the last one. */
  lemma AwardsAddUp(c: Character, parts: seq<nat>)
    requires parts != []
    ensures (forall t: Table :: SameGrowth(Awards(t, c, parts), Given(t, c, Whole(parts))))
      <==> c.level >= TOP || forall k :: 0 < k <= |parts| ==> Total(c.exp, parts[..k]) <= Total(c.exp, parts)
  {
    hide Climb, Peak, Total, Awards, Whole;
    var at := PeakIsLargest(c.exp, parts);
    var high, last := Peak(c.exp, parts), Total(c.exp, parts);
    assert last == (c.exp + Whole(parts)) % WORD by { TotalIs(c.exp, parts); }
    forall t: Table
      ensures c.level >= TOP || high == last ==> SameGrowth(Awards(t, c, parts), Given(t, c, Whole(parts)))
    {
      if c.level >= TOP {
        TopStays(t, c, parts);
      } else {
        AwardsClimb(t, c, parts);
      }
    }
    if c.level < TOP && high > last {
      var t := StepTable(high);
      AwardsClimb(t, c, parts);
      StepTableJumps(high, high, c.level, c.stats);
      StepTableJumps(high, last, c.level, c.stats);
      assert !SameGrowth(Awards(t, c, parts), Given(t, c, Whole(parts)));
    }
  }

  lemma TotalIs(exp: nat, parts: seq<nat>)
    ensures Total(exp, parts) == (exp + Whole(parts)) % WORD
  {
  }

  /** Two awards: exactly when the second one does not overflow 32 bits. */
  lemma SplitAward(c: Character, a: nat, b: nat)
    requires c.level < TOP && c.exp < WORD && a < WORD && b < WORD
    ensures (forall t: Table :: SameGrowth(Given(t, Given(t, c, a), b), Given(t, c, a + b)))
      <==> (c.exp + a) % WORD + b < WORD
  {
    hide Given;
    var parts := [a, b];
    TwoAwards(a, b);
    forall t: Table
      ensures Awards(t, c, parts) == Given(t, Given(t, c, a), b)
    {
      assert parts[..1] == [a] && [a][..0] == [];
      assert Awards(t, c, []) == c;
    }
    AwardsAddUp(c, parts);
    SecondWraps(c.exp + a, b);
    assert parts[..1] == [a] && parts[..2] == parts;
  }

  lemma TwoAwards(a: nat, b: nat)
    ensures Whole([a]) == a && Whole([a, b]) == a + b
  {
    assert [a][..0] == [] && [a, b][..1] == [a];
  }

  lemma SecondWraps(x: nat, b: nat)
    requires b < WORD
    ensures x % WORD <= (x + b) % WORD <==> x % WORD + b < WORD
  {
    AddInWord(x, b);
    if x % WORD + b >= WORD {
      assert (x % WORD + b) % WORD == x % WORD + b - WORD;
    }
  }

  /** The totals of two awards and of one agree unless the first reaches the last level, where the
      second is no longer counted. */
  lemma SplitTotals(t: Table, c: Character, a: nat, b: nat)
    requires c.level < TOP && b < WORD
    ensures Given(t, Given(t, c, a), b).exp == Given(t, c, a + b).exp <==> Given(t, c, a).level < TOP || b == 0
  {
    hide Climb;
    AddInWord(c.exp + a, b);
    SecondWraps(c.exp + a, b);
    if b > 0 && (c.exp + a) % WORD + b < WORD {
      assert (c.exp + a + b) % WORD == (c.exp + a) % WORD + b;
    }
  }

  // ---------------------------------------------------------------- the level that is reached

  predicate Nondecreasing(t: Table) {
    forall i, j :: 0 <= i <= j < 200 ==> t[i].exp <= t[j].exp
  }

  /** The greatest level, at most the last one, whose threshold is met. */
  predicate Greatest(t: Table, total: nat, level: nat) {
    level <= TOP && t[level].exp <= total && forall l :: level < l <= TOP ==> total < t[l].exp
  }

  lemma {:induction false} ClimbsToGreatest(t: Table, total: nat, level: nat, stats: Stats)
    requires Nondecreasing(t) && level <= TOP && t[level].exp <= total
    ensures Greatest(t, total, Climb(t, total, level, stats).0)
    decreases TOP - level
  {
    hide Plus;
    if level < TOP {
      if total >= t[level + 1].exp {
        ClimbsToGreatest(t, total, level + 1, Plus(stats, t[level + 1].gain));
      } else {
        assert forall l :: level < l <= TOP ==> t[level + 1].exp <= t[l].exp;
      }
    }
  }

  /** After an award the level is the greatest whose threshold is met exactly when the new total still
      meets that of the old level; so it is for every character whose level fits its experience, as
      long as the total does not wrap around. */
  lemma GivenIsGreatest(t: Table, c: Character, exp: nat)
    requires Nondecreasing(t) && c.level <= TOP
    ensures Greatest(t, Given(t, c, exp).exp, Given(t, c, exp).level) <==> t[c.level].exp <= Given(t, c, exp).exp
    ensures Greatest(t, c.exp, c.level) && c.exp + exp < WORD ==> Greatest(t, c.exp + exp, Given(t, c, exp).level)
  {
    hide Climb;
    if c.level < TOP {
      var total := (c.exp + exp) % WORD;
      if t[c.level].exp <= total {
        ClimbsToGreatest(t, total, c.level, c.stats);
      } else {
        StaysBelow(t, total, c.level, c.stats);
      }
    }
  }

  lemma StaysBelow(t: Table, total: nat, level: nat, stats: Stats)
    requires Nondecreasing(t) && level < TOP && total < t[level].exp
    ensures Climb(t, total, level, stats) == (level, stats)
  {
    assert t[level].exp <= t[level + 1].exp;
  }

  // ---------------------------------------------------------------- the stats that are reached

  /** What the levels above `low`, up to `high`, add to one stat. */
  function Gain(t: Table, stat: Stats -> nat, low: nat, high: nat): nat
    requires low <= high <= TOP
    decreases high - low
  {
    if low == high then 0 else stat(t[low + 1].gain) + Gain(t, stat, low + 1, high)
  }

  /** A stat that the sum of two stat blocks adds like any 16-bit number. */
  ghost predicate IsStat(stat: Stats -> nat) {
    forall a: Stats, b: Stats :: stat(Plus(a, b)) == (stat(a) + stat(b)) % 0x10000
  }

  function Atp(s: Stats): nat { s.atp }

  function Mst(s: Stats): nat { s.mst }

  function Evp(s: Stats): nat { s.evp }

  function Hp(s: Stats): nat { s.hp }

  function Dfp(s: Stats): nat { s.dfp }

  function Ata(s: Stats): nat { s.ata }

  /** Each of the six is one. */
  lemma SixStats()
    ensures IsStat(Atp) && IsStat(Mst) && IsStat(Evp) && IsStat(Hp) && IsStat(Dfp) && IsStat(Ata)
  {
  }

  lemma AddMod(a: nat, b: nat, c: nat)
    ensures ((a + b) % 0x10000 + c) % 0x10000 == (a + (b + c)) % 0x10000
  {
  }

  lemma {:induction false} ClimbGains(t: Table, total: nat, level: nat, stats: Stats, stat: Stats -> nat)
    requires level <= TOP && IsStat(stat)
    ensures level <= Climb(t, total, level, stats).0 <= TOP
    ensures Climb(t, total, level, stats).0 > level ==>
      stat(Climb(t, total, level, stats).1) == (stat(stats) + Gain(t, stat, level, Climb(t, total, level, stats).0)) % 0x10000
    ensures Climb(t, total, level, stats).0 == level ==> Climb(t, total, level, stats).1 == stats
    decreases TOP - level
  {
    hide Plus;
    if level < TOP && total >= t[level + 1].exp {
      var next := Plus(stats, t[level + 1].gain);
      ClimbGains(t, total, level + 1, next, stat);
      AddMod(stat(stats), stat(t[level + 1].gain), Gain(t, stat, level + 1, Climb(t, total, level, stats).0));
    }
  }

  /** After an award each stat has grown by what all the levels reached add to it, in 16 bits. */
  lemma GivenGains(t: Table, c: Character, exp: nat, stat: Stats -> nat)
    requires c.level <= TOP && IsStat(stat)
    ensures c.level <= Given(t, c, exp).level <= TOP
    ensures Given(t, c, exp).level > c.level ==>
      stat(Given(t, c, exp).stats) == (stat(c.stats) + Gain(t, stat, c.level, Given(t, c, exp).level)) % 0x10000
    ensures Given(t, c, exp).level == c.level ==> Given(t, c, exp).stats == c.stats
  {
    hide Climb, Gain, IsStat;
    if c.level < TOP {
      ClimbGains(t, (c.exp + exp) % WORD, c.level, c.stats, stat);
    }
  }
}
