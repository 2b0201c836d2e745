/**
 The PRS compressor at work: the bit writer with its flag byte, and prs_compress and prs_archive.
 */
module PrsCompressor {
  import opened Bytes
  import opened PrsStream
  import opened PrsFormat
  import opened PrsSearch
  import opened PrsEncoder

  /** The bytes a stream takes. */
  ghost function Size(evs: seq<Event>): nat {
    (Weight(evs) + 7) / 8
  }

  lemma SizePrefix(a: seq<Event>, b: seq<Event>)
    requires a <= b
    ensures Size(a) <= Size(b)
  {
    assert b == a + b[|a|..];
    WeightConcat(a, b[|a|..]);
  }

  /** Shifting one more bit into the flag register, whose top `n` bits are in use. */
  lemma ShiftIn(flags: byte, v: bool, n: nat)
    requires n < 8
    ensures (flags / 2 + (if v then 128 else 0)) / Pow2(7 - n) ==
            flags / Pow2(8 - n) + (if v then Pow2(n) else 0)
  {
    assert Pow2(1) == 2 && Pow2(2) == 4 && Pow2(3) == 8 && Pow2(4) == 16;
    assert Pow2(5) == 32 && Pow2(6) == 64 && Pow2(7) == 128 && Pow2(8) == 256;
    if n == 0 {
    } else if n == 1 {
    } else if n == 2 {
    } else if n == 3 {
    } else if n == 4 {
    } else if n == 5 {
    } else if n == 6 {
    } else {
    }
  }

  /** One more event in a stream. */
  lemma PackSnoc(evs: seq<Event>, e: Event)
    requires Startable(evs) && (e.Byte? ==> evs != [])
    ensures Startable(evs + [e]) && Pack(evs + [e]) == PackOne(Pack(evs), e)
    ensures Size(evs + [e]) == |Pack(evs + [e]).cells|
  {
    assert (evs + [e])[..|evs + [e]| - 1] == evs;
    PackedSize(evs + [e]);
  }

  /** The flag register `flags`, with `bitsLeft` bits free, holds the bits of the current cell. */
  ghost predicate Holds(p: Packed, flags: byte, bitsLeft: nat)
    requires p.Valid()
  {
    if p.cur < 0 then bitsLeft == 0
    else bitsLeft == 8 - |p.cells[p.cur].bits| && flags / Pow2(bitsLeft) == BitsVal(p.cells[p.cur].bits)
  }

  lemma HoldsRoom(p: Packed, flags: byte, bitsLeft: nat)
    requires p.Valid() && Holds(p, flags, bitsLeft)
    ensures bitsLeft == if p.cur < 0 then 0 else 8 - |p.cells[p.cur].bits|
  {
  }

  /** A bit takes a new byte exactly when the current flag byte is full. */
  lemma BitCells(p: Packed, value: bool)
    requires p.Valid()
    ensures |PackOne(p, Bit(value)).cells| == |p.cells| + if p.cur < 0 || |p.cells[p.cur].bits| == 8 then 1 else 0
  {
  }

  lemma HoldsFirst(p: Packed, flags: byte, value: bool)
    requires p.Valid() && Holds(p, flags, 0)
    ensures Holds(PackOne(p, Bit(value)), flags / 2 + (if value then 128 else 0), 7)
  {
    ShiftIn(flags, value, 0);
    assert Pow2(8) == 256 && Pow2(0) == 1;
    assert BitsVal([value]) == if value then 1 else 0;
  }

  lemma HoldsNext(p: Packed, flags: byte, bitsLeft: nat, value: bool)
    requires p.Valid() && Holds(p, flags, bitsLeft) && bitsLeft > 0
    ensures Holds(PackOne(p, Bit(value)), flags / 2 + (if value then 128 else 0), bitsLeft - 1)
  {
    ShiftIn(flags, value, 8 - bitsLeft);
    BitsValSnoc(p.cells[p.cur].bits, value);
  }

  lemma HoldsFull(p: Packed, flags: byte)
    requires p.Valid() && Holds(p, flags, 0) && p.cur >= 0
    ensures flags == CellVal(p.cells[p.cur])
  {
    assert Pow2(0) == 1;
  }

  lemma Quotient(a: nat, d: nat)
    requires d >= 1
    ensures 0 <= a / d <= a
  {
    assert a == d * (a / d) + a % d;
  }

  class Writer {
    const dst: array<byte>
    var dstPos: nat
    var flagPtr: nat
    var flags: byte
    var bitsLeft: nat
    ghost var evs: seq<Event>    // everything written so far

    constructor (dst: array<byte>)
      ensures this.dst == dst && Valid() && evs == []
    {
      this.dst := dst;
      dstPos, flagPtr, flags, bitsLeft := 0, 0, 0, 0;
      evs := [];
    }

    /** Everything but the current flag byte is in its place. */
    ghost predicate Stored(p: Packed)
      reads `dstPos, `flagPtr, dst
    {
      && p.Valid() && dstPos == |p.cells| <= dst.Length
      && flagPtr == (if p.cur < 0 then 0 else p.cur)
      && (forall i :: 0 <= i < dstPos && i != p.cur ==> dst[i] == CellVal(p.cells[i]))
    }

    /** The current flag bits are in the top of the register; older bits may be left below them. */
    ghost predicate Valid()
      reads this, dst
    {
      Startable(evs) && Stored(Pack(evs)) && Holds(Pack(evs), flags, bitsLeft)
    }

    method SetBit(value: bool) returns (rv: int)
      requires Valid()
      modifies this, dst
      ensures evs == old(evs) + [Bit(value)] && Startable(evs)
      ensures if Size(evs) <= dst.Length then rv == 0 && Valid() else rv == ENOSPC
    {
      hide CellVal, BitsVal, Pow2, Weight, Holds, Pack, PackOne, Startable;
      PackSnoc(evs, Bit(value));
      HoldsRoom(Pack(evs), flags, bitsLeft);
      BitCells(Pack(evs), value);
      if bitsLeft == 0 {
        if dstPos >= dst.Length {
          evs := evs + [Bit(value)];
          return ENOSPC;
        }
        NextFlagByte(value);
        HoldsFirst(Pack(evs), flags, value);
        bitsLeft := 7;
      } else {
        StoredInCell(Pack(evs), value);
        HoldsNext(Pack(evs), flags, bitsLeft, value);
        bitsLeft := bitsLeft - 1;
      }
      evs := evs + [Bit(value)];
      flags := flags / 2 + (if value then 128 else 0);
      rv := 0;
    }

    /** One more bit in the current flag byte changes nothing in memory. */
    lemma StoredInCell(p: Packed, value: bool)
      requires Stored(p) && p.cur >= 0 && |p.cells[p.cur].bits| < 8
      ensures Stored(PackOne(p, Bit(value)))
    {
      hide CellVal;
    }

    /** Stores the full flag byte and reserves the next one. */
    method NextFlagByte(ghost value: bool)
      requires Valid() && bitsLeft == 0 && dstPos < dst.Length
      modifies this`flagPtr, this`dstPos, dst
      ensures flagPtr == old(dstPos) && dstPos == old(dstPos) + 1
      ensures Stored(PackOne(Pack(evs), Bit(value)))
    {
      if evs != [] {
        HoldsFull(Pack(evs), flags);
      }
      dst[flagPtr] := flags;
      flagPtr := dstPos;
      dstPos := dstPos + 1;
    }

    method WriteLiteral(x: byte) returns (rv: int)
      requires Startable(evs) && evs != [] && Stored(Pack(evs))
      modifies this`dstPos, this`evs, dst
      ensures evs == old(evs) + [Byte(x)] && Startable(evs)
      ensures if Size(evs) <= dst.Length then rv == 0 && Stored(Pack(evs)) else rv == ENOSPC
      ensures rv == 0 && old(Valid()) ==> Valid()
      ensures Pack(evs).cur == Pack(old(evs)).cur && flagPtr < dst.Length && dst[flagPtr] == old(dst[flagPtr])
      ensures Pack(evs).cells[flagPtr] == Pack(old(evs)).cells[flagPtr]
    {
      PackSnoc(evs, Byte(x));
      evs := evs + [Byte(x)];
      if dstPos >= dst.Length {
        return ENOSPC;
      }
      dst[dstPos] := x;
      dstPos := dstPos + 1;
      rv := 0;
    }

    method WriteOne(e: Event) returns (rv: int)
      requires Valid() && (e.Byte? ==> evs != [])
      modifies this, dst
      ensures evs == old(evs) + [e] && Startable(evs)
      ensures if Size(evs) <= dst.Length then rv == 0 && Valid() else rv == ENOSPC
    {
      match e {
        case Bit(b) => rv := SetBit(b);
        case Byte(x) => rv := WriteLiteral(x);
      }
    }

    /** Writes bits and bytes in order, up to the first that does not fit. */
    method WriteAll(more: seq<Event>) returns (rv: int)
      requires Valid() && (evs == [] ==> more != [] && more[0].Bit?)
      modifies this, dst
      ensures if rv == 0 then Valid() && evs == old(evs) + more
              else rv == ENOSPC && evs <= old(evs) + more && Size(evs) > dst.Length
    {
      hide Size, Startable, Valid, Stored, Holds;
      for i := 0 to |more|
        invariant Valid() && evs == old(evs) + more[..i]
      {
        assert more[..i + 1] == more[..i] + [more[i]];
        assert old(evs) + more[..i + 1] == (old(evs) + more[..i]) + [more[i]];
        assert old(evs) + more[..i + 1] <= old(evs) + more;
        rv := WriteOne(more[i]);
        if rv != 0 {
          return;
        }
      }
      rv := 0;
    }

    /** The final flags, moved down over the free bits. */
    method WriteFinalFlags()
      requires Valid() && evs != []
      modifies this`flags, dst
      ensures Stored(Pack(evs)) && dst[flagPtr] == CellVal(Pack(evs).cells[flagPtr])
    {
      Quotient(flags, Pow2(bitsLeft));
      flags := flags / Pow2(bitsLeft);
      dst[flagPtr] := flags;
    }

    method WriteEof() returns (rv: int)
      requires Valid()
      modifies this, dst
      ensures if rv == 0 then
                && evs == old(evs) + END && Startable(evs)
                && dstPos <= dst.Length && dst[..dstPos] == Render(Pack(evs).cells)
              else rv == ENOSPC && evs <= old(evs) + END && Size(evs) > dst.Length
    {
      rv := WriteAll([Bit(false), Bit(true)]);
      if rv != 0 {
        return;
      }
      WriteFinalFlags();
      rv := WriteLiteral(0);
      if rv != 0 {
        return;
      }
      rv := WriteLiteral(0);
    }
  }

  // ---------------------------------------------------------------- prs_compress

  /** The two offset bytes, computed from a negative offset as C computes them. */
  lemma OffsetBits(offset: int)
    requires -MAX_WINDOW <= offset < 0
    ensures offset % 32 == (MAX_WINDOW + offset) % 32
    ensures offset / 32 % 256 == (MAX_WINDOW + offset) / 32
    ensures -256 <= offset ==> offset % 256 == 256 + offset
  {
  }

  /** The bits and bytes of a match, computed from its negative offset. */
  function MatchEvents(len: nat, offset: int): seq<Event>
    requires len >= 2 && -MAX_WINDOW <= offset < 0
    requires len == 2 ==> offset >= -256
  {
    if len <= 5 && offset >= -256 then
      [Bit(false), Bit(false), Bit((len - 2) / 2 % 2 != 0), Bit((len - 2) % 2 != 0), Byte(offset % 256)]
    else if len <= 9 then
      [Bit(false), Bit(true), Byte(offset % 32 * 8 + (len - 2) % 8), Byte(offset / 32 % 256)]
    else
      var clipped := if len > 256 then 256 else len;
      [Bit(false), Bit(true), Byte(offset % 32 * 8), Byte(offset / 32 % 256), Byte(clipped - 1)]
  }

  lemma MatchEventsAre(len: nat, offset: int)
    requires len >= 2 && -MAX_WINDOW <= offset < 0
    requires len == 2 ==> offset >= -256
    ensures MatchEvents(len, offset) == Events(TokenFor(0, -offset, Match(len, 0)))
  {
    OffsetBits(offset);
    ShortBits(len);
  }

  lemma ShortBits(len: nat)
    ensures 2 <= len <= 5 ==> (((len - 2) / 2 % 2 != 0) <==> (len - 2) / 2 == 1) && (((len - 2) % 2 != 0) <==> (len - 2) % 2 == 1)
    ensures 2 <= len <= 9 ==> (len - 2) % 8 == len - 2
  {
  }

  /** The match to use at position `p`, after a look at the next position; enters `p` into the chains. */
  method PickMatch(hc: Chains, p: nat) returns (len: nat, offset: int)
    requires p + 2 < |hc.text| && hc.Valid() && hc.next == p
    modifies hc`next, hc.hash, hc.hPrev
    ensures hc.Valid() && hc.next == p + 1
    ensures len == Pick(hc.text, p).len
    ensures len > 0 ==> offset == Pick(hc.text, p).from - p && -MAX_WINDOW <= offset < 0
  {
    len, offset := hc.FindLongestMatch(p, false);
    if len > 0 {
      var len2, offset2 := hc.FindLongestMatch(p + 1, true);
      if len2 > len &&
         !(2 <= len <= 5 && offset2 < offset && offset >= -256 && offset2 < -256 && len2 - len < 3) {
        len := 0;
      }
    }
  }

  /** Enters the positions inside a copy into the chains. */
  method AddIntermediates(hc: Chains, p: nat, len: nat)
    requires len >= 1 && p + len < |hc.text| && hc.Valid() && hc.next == p + 1
    modifies hc`next, hc.hash, hc.hPrev
    ensures hc.Valid() && hc.next == p + len
  {
    for i := 1 to len
      invariant hc.Valid() && hc.next == p + i
    {
      hc.Add(p + i, HashAt(hc.text, p + i));
    }
  }

  /** The two objects do not share memory. */
  ghost predicate Apart(hc: Chains, w: Writer) {
    w.dst as object != hc.hash && w.dst as object != hc.hPrev
  }

  /** The chosen token in terms of the match length and the negative offset. */
  lemma ChosenEvents(text: seq<byte>, p: nat, len: nat, offset: int)
    requires p + 2 < |text| && len == Pick(text, p).len
    requires len > 0 ==> offset == Pick(text, p).from - p && -MAX_WINDOW <= offset < 0
    ensures if len > 2 || (len == 2 && offset >= -256) then
              && Events(Choose(text, p)) == MatchEvents(len, offset)
              && Choose(text, p).Span() == if len > 256 then 256 else len
            else Choose(text, p) == Literal(text[p])
  {
    hide MatchEvents, Events, Pick;
    TokenByOffset(text[p], p, Pick(text, p), len, offset);
    if len > 2 || (len == 2 && offset >= -256) {
      MatchEventsAre(len, offset);
    }
  }

  lemma TokenByOffset(x: byte, p: nat, m: Match, len: nat, offset: int)
    requires m.from < p && len == m.len && (len > 0 ==> offset == m.from - p)
    ensures if len > 2 || (len == 2 && offset >= -256)
            then TokenFor(x, p, m) == TokenFor(0, -offset, Match(len, 0))
            else TokenFor(x, p, m) == Literal(x)
  {
  }

  /** One round of the compression loop: emits the token for position `p` and enters the positions
      it covers into the chains. */
  method CompressStep(hc: Chains, w: Writer, p: nat) returns (rv: int, len: nat)
    requires p + 2 < |hc.text| && hc.Valid() && hc.next == p
    requires w.Valid() && w.evs != [] && Apart(hc, w)
    modifies hc`next, hc.hash, hc.hPrev, w, w.dst
    ensures hc.Valid()
    ensures if rv == 0 then
              && w.Valid() && w.evs == old(w.evs) + Events(Choose(hc.text, p))
              && len == Choose(hc.text, p).Span() && hc.next == p + len
            else
              && rv == ENOSPC && Size(w.evs) > w.dst.Length
              && w.evs <= old(w.evs) + Events(Choose(hc.text, p))
  {
    var mlen, offset := PickMatch(hc, p);
    ChosenEvents(hc.text, p, mlen, offset);
    ghost var t := Choose(hc.text, p);
    if mlen > 2 || (mlen == 2 && offset >= -256) {
      rv := w.WriteAll(MatchEvents(mlen, offset));
      len := if mlen > 256 then 256 else mlen;
      if rv == 0 {
        AddIntermediates(hc, p, len);
      }
    } else {
      rv := w.WriteAll(Events(Literal(hc.text[p])));
      len := 1;
    }
  }

  /** `evs` are written and `ts` remain of the stream `total`. */
  ghost predicate Plan(total: seq<Event>, evs: seq<Event>, ts: Tokens) {
    AllValid(ts) && total == evs + StreamEvents(ts)
  }

  /** Writing the next token keeps to the plan; what is written is never larger than the whole. */
  lemma PlanStep(total: seq<Event>, evs: seq<Event>, t: Token, ts: Tokens)
    requires Plan(total, evs, More(t, ts))
    ensures t.Valid() && Plan(total, evs + Events(t), ts)
    ensures forall e | e <= evs + Events(t) :: Size(e) <= Size(total)
  {
    hide Events, Size;
    assert total == evs + Events(t) + StreamEvents(ts);
    forall e | e <= evs + Events(t) ensures Size(e) <= Size(total) {
      SizePrefix(e, total);
    }
  }

  /** The end marker is all that remains. */
  method WriteRest(w: Writer, ghost total: seq<Event>) returns (rv: int)
    requires w.Valid() && Startable(total) && Plan(total, w.evs, Stop)
    modifies w, w.dst
    ensures if Size(total) <= w.dst.Length
            then rv == |Pack(total).cells| && rv <= w.dst.Length && w.dst[..rv] == Render(Pack(total).cells)
            else rv == ENOSPC
  {
    PackedSize(total);
    rv := w.WriteEof();
    if rv != 0 {
      SizePrefix(w.evs, total);
      return;
    }
    rv := w.dstPos;
  }

  /** One token, from its own events. */
  method EmitLiteral(w: Writer, x: byte, ghost total: seq<Event>, ghost rest: Tokens) returns (rv: int)
    requires w.Valid() && Plan(total, w.evs, More(Literal(x), rest))
    modifies w, w.dst
    ensures if rv == 0 then w.Valid() && w.evs != [] && Plan(total, w.evs, rest)
            else rv == ENOSPC && Size(total) > w.dst.Length
  {
    PlanStep(total, w.evs, Literal(x), rest);
    rv := w.WriteAll(Events(Literal(x)));
  }

  /** The chains with the first two positions in them. */
  method NewChains(text: seq<byte>, base: nat) returns (hc: Chains)
    requires |text| > 2
    ensures fresh(hc) && fresh(hc.hash) && fresh(hc.hPrev)
    ensures hc.text == text && hc.Valid() && hc.next == 2
  {
    hc := new Chains(text, base);
    hc.Add(0, HashAt(text, 0));
    hc.Add(1, HashAt(text, 1));
  }

  lemma PlanStart(src: seq<byte>, past: byte)
    requires |src| > 3
    ensures AllValid(TokensOf(src)) && Compressed(src) == Encode(TokensOf(src))
    ensures var ts := Parse(src + [past], 2);
            Plan(StreamEvents(TokensOf(src)), [], More(Literal(src[0]), More(Literal(src[1]), ts)))
  {
    TokensExpand(src);
    PastIsIgnored(src, past);
  }

  /** The two literals in front, the token loop and the end marker, into a buffer of any size. */
  method CompressInto(src: seq<byte>, past: byte, base: nat, dst: array<byte>) returns (rv: int)
    requires |src| > 3
    modifies dst
    ensures if |Compressed(src)| <= dst.Length
            then rv == |Compressed(src)| && dst[..rv] == Compressed(src)
            else rv == ENOSPC
  {
    hide Plan, Parse, Compressed, TokensOf, StreamEvents, Pack, Weight, Render, Chains.Fits, Writer.Stored;
    var hc := NewChains(src + [past], base);
    PlanStart(src, past);
    ghost var total, ts := StreamEvents(TokensOf(src)), Parse(hc.text, 2);
    PackedSize(total);
    var w := new Writer(dst);
    rv := EmitLiteral(w, src[0], total, More(Literal(src[1]), ts));
    if rv == 0 {
      rv := EmitLiteral(w, src[1], total, ts);
    }
    if rv == 0 {
      rv := CompressFrom(hc, w, total);
    }
  }

  /** One round of the token loop keeps to the plan. */
  method CompressRound(hc: Chains, w: Writer, p: nat, ghost total: seq<Event>) returns (rv: int, next: nat)
    requires p + 2 < |hc.text| && hc.Valid() && hc.next == p
    requires w.Valid() && w.evs != [] && Apart(hc, w) && Plan(total, w.evs, Parse(hc.text, p))
    modifies hc`next, hc.hash, hc.hPrev, w, w.dst
    ensures hc.Valid()
    ensures if rv == 0 then
              && p < next < |hc.text| && hc.next == next
              && w.Valid() && w.evs != [] && Plan(total, w.evs, Parse(hc.text, next))
            else rv == ENOSPC && Size(total) > w.dst.Length
  {
    hide Choose, Plan, Size;
    ghost var t := Choose(hc.text, p);
    PlanStep(total, w.evs, t, Parse(hc.text, p + t.Span()));
    var len;
    rv, len := CompressStep(hc, w, p);
    next := p + len;
  }

  /** A last byte that the loop has left over, and the end marker. */
  method CompressTail(w: Writer, text: seq<byte>, p: nat, ghost total: seq<Event>) returns (rv: int)
    requires |text| - 2 <= p < |text|
    requires w.Valid() && Startable(total) && Plan(total, w.evs, Parse(text, p))
    modifies w, w.dst
    ensures if Size(total) <= w.dst.Length
            then rv == |Pack(total).cells| && rv <= w.dst.Length && w.dst[..rv] == Render(Pack(total).cells)
            else rv == ENOSPC
  {
    if p < |text| - 1 {
      rv := EmitLiteral(w, text[p], total, Stop);
      if rv != 0 {
        return;
      }
    }
    rv := WriteRest(w, total);
  }

  /** The token loop, from the third byte on. */
  method CompressFrom(hc: Chains, w: Writer, ghost total: seq<Event>) returns (rv: int)
    requires |hc.text| > 4 && hc.Valid() && hc.next == 2
    requires w.Valid() && w.evs != [] && Apart(hc, w)
    requires Startable(total) && Plan(total, w.evs, Parse(hc.text, 2))
    modifies hc`next, hc.hash, hc.hPrev, w, w.dst
    ensures if Size(total) <= w.dst.Length
            then rv == |Pack(total).cells| && rv <= w.dst.Length && w.dst[..rv] == Render(Pack(total).cells)
            else rv == ENOSPC
  {
    var p := 2;
    while p < |hc.text| - 2
      invariant p < |hc.text|
      invariant hc.Valid() && hc.next == p && w.Valid() && w.evs != []
      invariant Plan(total, w.evs, Parse(hc.text, p))
    {
      rv, p := CompressRound(hc, w, p, total);
      if rv != 0 {
        return;
      }
    }
    rv := CompressTail(w, hc.text, p, total);
  }

  /** Every byte a literal, from byte `i` on. */
  method ArchiveFrom(src: seq<byte>, w: Writer, ghost total: seq<Event>) returns (rv: int)
    requires w.Valid() && Startable(total) && Plan(total, w.evs, Literals(src)) && Size(total) <= w.dst.Length
    modifies w, w.dst
    ensures rv == |Pack(total).cells| && rv <= w.dst.Length && w.dst[..rv] == Render(Pack(total).cells)
  {
    assert src[0..] == src;
    for i := 0 to |src|
      invariant w.Valid() && Plan(total, w.evs, Literals(src[i..]))
    {
      LiteralsStep(src, i);
      rv := EmitLiteral(w, src[i], total, Literals(src[i + 1..]));
      if rv != 0 {
        assert false;
      }
    }
    rv := WriteRest(w, total);
  }

  /** prs_archive. */
  method PrsArchive(src: seq<byte>) returns (rv: int, dst: array<byte>)
    requires src != []
    ensures fresh(dst) && AllValid(Literals(src))
    ensures rv == dst.Length == MaxCompressedSize(|src|) && dst[..] == Encode(Literals(src))
  {
    LiteralsExpand(src, []);
    ghost var total := StreamEvents(Literals(src));
    CompressedSize(src);
    PackedSize(total);
    dst := new byte[MaxCompressedSize(|src|)];
    var w := new Writer(dst);
    rv := ArchiveFrom(src, w, total);
  }

  lemma LiteralsStep(src: seq<byte>, i: nat)
    requires i < |src|
    ensures Literals(src[i..]) == More(Literal(src[i]), Literals(src[i + 1..]))
  {
    assert src[i..][1..] == src[i + 1..];
  }

  /** prs_compress. */
  method PrsCompress(src: seq<byte>, past: byte, base: nat) returns (rv: int, dst: seq<byte>)
    ensures src == [] ==> rv == EINVAL && dst == []
    ensures src != [] ==> rv == |dst| <= MaxCompressedSize(|src|) && dst == Compressed(src)
  {
    if |src| == 0 {
      return EINVAL, [];
    }
    CompressedSize(src);
    if |src| <= 3 {
      var stored;
      rv, stored := PrsArchive(src);
      return rv, stored[..];
    }
    var buf := new byte[MaxCompressedSize(|src|)];
    rv := CompressInto(src, past, base, buf);
    dst := buf[..rv];
  }
}
