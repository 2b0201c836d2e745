/** The bytes of short PRS streams, written out: where the flag bits and the fields of copies are. */
module PrsLayout {
  import opened Bytes
  import opened PrsStream
  import opened PrsFormat

  /** Up to eight flag bits share one byte, in front of all data. */
  predicate OneFlagByte(evs: seq<Event>, bits: FlagBits, data: seq<Cell>) {
    evs != [] && Startable(evs) && Pack(evs) == Packed([Flags(bits)] + data, 0)
  }

  lemma FirstBit(b: bool)
    ensures OneFlagByte([Bit(b)], [b], [])
  {
    assert [Bit(b)][..0] == [];
    assert Pack([Bit(b)][..0]) == Packed([], -1);
  }

  lemma NextBit(evs: seq<Event>, bits: FlagBits, data: seq<Cell>, b: bool)
    requires OneFlagByte(evs, bits, data) && |bits| < 8
    ensures OneFlagByte(evs + [Bit(b)], bits + [b], data)
  {
    assert (evs + [Bit(b)])[..|evs|] == evs;
    assert ([Flags(bits)] + data)[0 := Flags(bits + [b])] == [Flags(bits + [b])] + data;
  }

  lemma NextByte(evs: seq<Event>, bits: FlagBits, data: seq<Cell>, x: byte)
    requires OneFlagByte(evs, bits, data)
    ensures OneFlagByte(evs + [Byte(x)], bits, data + [Cell.Data(x)])
  {
    assert (evs + [Byte(x)])[..|evs|] == evs;
    assert ([Flags(bits)] + data) + [Cell.Data(x)] == [Flags(bits)] + (data + [Cell.Data(x)]);
  }

  lemma ValueCons(b: bool, rest: seq<bool>)
    requires |rest| < 8
    ensures BitsVal([b] + rest) == (if b then 1 else 0) + 2 * BitsVal(rest)
  {
    assert ([b] + rest)[1..] == rest;
  }

  lemma NoValue()
    ensures BitsVal([]) == 0
  {
  }

  /** The first bit is the lowest: a literal, a copy with or without two bits of length, and the end. */
  lemma FlagValue(hi: bool, lo: bool)
    ensures BitsVal([true, false, true]) == 5
    ensures BitsVal([true, false, true, false, true]) == 21
    ensures BitsVal([true, false, false, hi, lo, false, true]) == 65 + (if hi then 8 else 0) + if lo then 16 else 0
  {
    hide BitsVal;
    NoValue();
    assert [true] + [] == [true];
    ValueCons(true, []);
    assert [false] + [true] == [false, true];
    ValueCons(false, [true]);
    assert [true] + [false, true] == [true, false, true];
    ValueCons(true, [false, true]);
    assert [false] + [true, false, true] == [false, true, false, true];
    ValueCons(false, [true, false, true]);
    assert [true] + [false, true, false, true] == [true, false, true, false, true];
    ValueCons(true, [false, true, false, true]);
    assert [lo] + [false, true] == [lo, false, true];
    ValueCons(lo, [false, true]);
    assert [hi] + [lo, false, true] == [hi, lo, false, true];
    ValueCons(hi, [lo, false, true]);
    assert [false] + [hi, lo, false, true] == [false, hi, lo, false, true];
    ValueCons(false, [hi, lo, false, true]);
    assert [false] + [false, hi, lo, false, true] == [false, false, hi, lo, false, true];
    ValueCons(false, [false, hi, lo, false, true]);
    assert [true] + [false, false, hi, lo, false, true] == [true, false, false, hi, lo, false, true];
    ValueCons(true, [false, false, hi, lo, false, true]);
  }

  /** The end mark behind other events. */
  lemma EndBehind(evs: seq<Event>, bits: FlagBits, data: seq<Cell>)
    requires OneFlagByte(evs, bits, data) && |bits| <= 6
    ensures OneFlagByte(evs + END, bits + [false, true], data + [Cell.Data(0), Cell.Data(0)])
  {
    hide OneFlagByte;
    NextBit(evs, bits, data, false);
    NextBit(evs + [Bit(false)], bits + [false], data, true);
    var more := evs + [Bit(false)] + [Bit(true)];
    NextByte(more, bits + [false] + [true], data, 0);
    NextByte(more + [Byte(0)], bits + [false] + [true], data + [Cell.Data(0)], 0);
    assert more + [Byte(0)] + [Byte(0)] == evs + END;
    assert bits + [false] + [true] == bits + [false, true];
    assert data + [Cell.Data(0)] + [Cell.Data(0)] == data + [Cell.Data(0), Cell.Data(0)];
  }

  lemma Values(evs: seq<Event>, bits: FlagBits, data: seq<Cell>)
    requires OneFlagByte(evs, bits, data)
    ensures Render(Pack(evs).cells) == [BitsVal(bits) as int] + Vals(data)
  {
    assert CellVal(Flags(bits)) == BitsVal(bits);
  }

  function Vals(data: seq<Cell>): (v: seq<int>)
    ensures |v| == |data|
  {
    seq(|data|, i requires 0 <= i < |data| => CellVal(data[i]) as int)
  }

  /** A literal in front. */
  lemma LiteralFirst(x: byte)
    ensures OneFlagByte([Bit(true), Byte(x)], [true], [Cell.Data(x)])
  {
    hide OneFlagByte;
    FirstBit(true);
    NextByte([Bit(true)], [true], [], x);
    assert [Bit(true)] + [Byte(x)] == [Bit(true), Byte(x)];
    assert [] + [Cell.Data(x)] == [Cell.Data(x)];
  }

  /** The bits 0 1 and two bytes behind a literal. */
  lemma FarFirst(x: byte, y: byte, z: byte)
    ensures OneFlagByte([Bit(true), Byte(x), Bit(false), Bit(true), Byte(y), Byte(z)],
                        [true, false, true], [Cell.Data(x), Cell.Data(y), Cell.Data(z)])
  {
    hide OneFlagByte;
    var a: seq<Event> := [Bit(true), Byte(x)];
    LiteralFirst(x);
    NextBit(a, [true], [Cell.Data(x)], false);
    NextBit(a + [Bit(false)], [true] + [false], [Cell.Data(x)], true);
    var b := a + [Bit(false)] + [Bit(true)];
    assert [true] + [false] + [true] == [true, false, true];
    NextByte(b, [true, false, true], [Cell.Data(x)], y);
    NextByte(b + [Byte(y)], [true, false, true], [Cell.Data(x)] + [Cell.Data(y)], z);
    assert b + [Byte(y)] + [Byte(z)] == [Bit(true), Byte(x), Bit(false), Bit(true), Byte(y), Byte(z)];
    assert [Cell.Data(x)] + [Cell.Data(y)] + [Cell.Data(z)] == [Cell.Data(x), Cell.Data(y), Cell.Data(z)];
  }

  /** The bits 0 0 and two more, and a byte, behind a literal. */
  lemma NearFirst(x: byte, hi: bool, lo: bool, y: byte)
    ensures OneFlagByte([Bit(true), Byte(x), Bit(false), Bit(false), Bit(hi), Bit(lo), Byte(y)],
                        [true, false, false, hi, lo], [Cell.Data(x), Cell.Data(y)])
  {
    hide OneFlagByte;
    var a: seq<Event> := [Bit(true), Byte(x)];
    LiteralFirst(x);
    NextBit(a, [true], [Cell.Data(x)], false);
    NextBit(a + [Bit(false)], [true] + [false], [Cell.Data(x)], false);
    NextBit(a + [Bit(false)] + [Bit(false)], [true] + [false] + [false], [Cell.Data(x)], hi);
    NextBit(a + [Bit(false)] + [Bit(false)] + [Bit(hi)], [true] + [false] + [false] + [hi], [Cell.Data(x)], lo);
    var b := a + [Bit(false)] + [Bit(false)] + [Bit(hi)] + [Bit(lo)];
    assert [true] + [false] + [false] + [hi] + [lo] == [true, false, false, hi, lo];
    NextByte(b, [true, false, false, hi, lo], [Cell.Data(x)], y);
    assert b + [Byte(y)] == [Bit(true), Byte(x), Bit(false), Bit(false), Bit(hi), Bit(lo), Byte(y)];
    assert [Cell.Data(x)] + [Cell.Data(y)] == [Cell.Data(x), Cell.Data(y)];
  }

  lemma Ended(ts: Tokens, evs: seq<Event>, bits: FlagBits, data: seq<Cell>)
    requires AllValid(ts) && StreamEvents(ts) == evs + END && OneFlagByte(evs, bits, data) && |bits| <= 6
    ensures Encode(ts) == [BitsVal(bits + [false, true]) as int] + Vals(data) + [0, 0]
  {
    hide OneFlagByte, BitsVal, Pack, Render;
    EndBehind(evs, bits, data);
    Values(evs + END, bits + [false, true], data + [Cell.Data(0), Cell.Data(0)]);
    assert Vals(data + [Cell.Data(0), Cell.Data(0)]) == Vals(data) + [0, 0];
  }

  /** A literal alone. */
  lemma LiteralBytes(x: byte)
    ensures AllValid(More(Literal(x), Stop)) && Encode(More(Literal(x), Stop)) == [5, x, 0, 0]
  {
    hide OneFlagByte, BitsVal, Pack, Render;
    LiteralFirst(x);
    FlagValue(true, true);
    assert StreamEvents(More(Literal(x), Stop)) == [Bit(true), Byte(x)] + END;
    Ended(More(Literal(x), Stop), [Bit(true), Byte(x)], [true], [Cell.Data(x)]);
    assert [true] + [false, true] == [true, false, true];
  }

  /** A literal and a copy of two to five bytes from nearby: two bits of length, and one byte. */
  lemma ShortCopyBytes(x: byte, len: nat, dist: nat)
    requires ShortCopy(len, dist).Valid()
    ensures var ts := More(Literal(x), More(ShortCopy(len, dist), Stop));
      AllValid(ts) && Encode(ts) == [65 + 8 * ((len - 2) / 2) + 16 * ((len - 2) % 2), x, 256 - dist, 0, 0]
  {
    hide OneFlagByte, BitsVal, Encode;
    var ts := More(Literal(x), More(ShortCopy(len, dist), Stop));
    var hi, lo := (len - 2) / 2 == 1, (len - 2) % 2 == 1;
    NearFirst(x, hi, lo, 256 - dist);
    FlagValue(hi, lo);
    var evs := [Bit(true), Byte(x), Bit(false), Bit(false), Bit(hi), Bit(lo), Byte(256 - dist)];
    TwoTokens(Literal(x), ShortCopy(len, dist));
    assert StreamEvents(ts) == evs + END;
    Ended(ts, evs, [true, false, false, hi, lo], [Cell.Data(x), Cell.Data(256 - dist)]);
    assert [true, false, false, hi, lo] + [false, true] == [true, false, false, hi, lo, false, true];
  }

  /** A literal and a copy of up to nine bytes: five and eight bits of distance, three of length. */
  lemma LongCopyBytes(x: byte, len: nat, dist: nat)
    requires LongCopy(len, dist).Valid()
    ensures var ts := More(Literal(x), More(LongCopy(len, dist), Stop));
      AllValid(ts) && Encode(ts) == [21, x, (8192 - dist) % 32 * 8 + (len - 2), (8192 - dist) / 32, 0, 0]
  {
    hide OneFlagByte, BitsVal, Encode;
    var ts := More(Literal(x), More(LongCopy(len, dist), Stop));
    var y, z := (8192 - dist) % 32 * 8 + (len - 2), (8192 - dist) / 32;
    FarFirst(x, y, z);
    FlagValue(true, true);
    var evs := [Bit(true), Byte(x), Bit(false), Bit(true), Byte(y), Byte(z)];
    TwoTokens(Literal(x), LongCopy(len, dist));
    assert StreamEvents(ts) == evs + END;
    Ended(ts, evs, [true, false, true], [Cell.Data(x), Cell.Data(y), Cell.Data(z)]);
    assert [true, false, true] + [false, true] == [true, false, true, false, true];
  }

  /** A literal and a copy with a length byte. */
  lemma ExtCopyBytes(x: byte, len: nat, dist: nat)
    requires ExtCopy(len, dist).Valid()
    ensures var ts := More(Literal(x), More(ExtCopy(len, dist), Stop));
      AllValid(ts) && Encode(ts) == [21, x, (8192 - dist) % 32 * 8, (8192 - dist) / 32, len - 1, 0, 0]
  {
    hide OneFlagByte, BitsVal, Encode;
    var ts := More(Literal(x), More(ExtCopy(len, dist), Stop));
    var y, z := (8192 - dist) % 32 * 8, (8192 - dist) / 32;
    FarFirst(x, y, z);
    FlagValue(true, true);
    var far := [Bit(true), Byte(x), Bit(false), Bit(true), Byte(y), Byte(z)];
    NextByte(far, [true, false, true], [Cell.Data(x), Cell.Data(y), Cell.Data(z)], len - 1);
    var evs := far + [Byte(len - 1)];
    TwoTokens(Literal(x), ExtCopy(len, dist));
    assert StreamEvents(ts) == evs + END;
    Ended(ts, evs, [true, false, true], [Cell.Data(x), Cell.Data(y), Cell.Data(z)] + [Cell.Data(len - 1)]);
    assert [true, false, true] + [false, true] == [true, false, true, false, true];
  }

  lemma TwoTokens(t: Token, u: Token)
    requires t.Valid() && u.Valid()
    ensures AllValid(More(t, More(u, Stop))) && StreamEvents(More(t, More(u, Stop))) == Events(t) + (Events(u) + END)
  {
    assert AllValid(Stop) && StreamEvents(Stop) == END;
    assert AllValid(More(u, Stop)) && StreamEvents(More(u, Stop)) == Events(u) + END;
  }
}
