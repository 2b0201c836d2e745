/**
 The bit and byte stream underneath the PRS format.

 A PRS stream interleaves flag bits with data bytes.  The compressor reserves a flag byte when it
 needs the first of its eight bits, goes on appending data bytes behind it, and fills the flag byte
 in afterwards; the decompressor fetches a flag byte when it runs out of bits.  `Pack` is the layout
 the writer must produce, `Reader` the position of the decompressor, and `PackedReads` says that a
 reader placed at the start of a packed stream fetches exactly the events that were packed.
 */
module PrsStream {
  import opened Bytes

  datatype Event = Bit(bit: bool) | Byte(val: byte)

  type FlagBits = s: seq<bool> | |s| <= 8

  datatype Cell = Data(val: byte) | Flags(bits: FlagBits)

  /** `cur` is the index of the flag byte being filled, or -1 before the first bit. */
  datatype Packed = Packed(cells: seq<Cell>, cur: int) {
    ghost predicate Valid() {
      && -1 <= cur < |cells|
      && (cur == -1 ==> cells == [])
      && (cur >= 0 ==> cells[cur].Flags? && |cells[cur].bits| >= 1)
    }
  }

  function PackOne(p: Packed, e: Event): (q: Packed)
    requires p.Valid()
    requires e.Byte? ==> p.cur >= 0
    ensures q.Valid()
  {
    match e
    case Byte(x) => Packed(p.cells + [Data(x)], p.cur)
    case Bit(b) =>
      if p.cur < 0 || |p.cells[p.cur].bits| == 8 then
        Packed(p.cells + [Flags([b])], |p.cells|)
      else
        Packed(p.cells[p.cur := Flags(p.cells[p.cur].bits + [b])], p.cur)
  }

  /** A stream starts with a bit. */
  predicate Startable(evs: seq<Event>) {
    evs == [] || evs[0].Bit?
  }

  function Pack(evs: seq<Event>): (p: Packed)
    requires Startable(evs)
    ensures p.Valid()
    ensures evs != [] ==> p.cur >= 0
  {
    if evs == [] then Packed([], -1)
    else PackOne(Pack(evs[..|evs| - 1]), evs[|evs| - 1])
  }

  function Pow2(n: nat): (p: nat)
    ensures p >= 1
  {
    if n == 0 then 1 else 2 * Pow2(n - 1)
  }

  /** The value of flag bits, first bit least significant. */
  function BitsVal(bits: seq<bool>): (v: nat)
    ensures v < Pow2(|bits|)
  {
    if bits == [] then 0 else (if bits[0] then 1 else 0) + 2 * BitsVal(bits[1..])
  }

  function CellVal(c: Cell): byte {
    match c
    case Data(x) => x
    case Flags(bits) =>
      Pow2Monotone(|bits|, 8);
      BitsVal(bits)
  }

  lemma Pow2Monotone(a: nat, b: nat)
    requires a <= b
    ensures Pow2(a) <= Pow2(b)
  {
    if a < b {
      Pow2Monotone(a, b - 1);
    }
  }

  function Render(cells: seq<Cell>): (s: seq<byte>)
    ensures |s| == |cells|
    ensures forall i :: 0 <= i < |s| ==> s[i] == CellVal(cells[i])
  {
    seq(|cells|, i requires 0 <= i < |cells| => CellVal(cells[i]))
  }

  lemma {:induction false} BitsValSnoc(bits: seq<bool>, b: bool)
    ensures BitsVal(bits + [b]) == BitsVal(bits) + (if b then Pow2(|bits|) else 0)
  {
    if bits == [] {
      assert bits + [b] == [b];
      assert [b][1..] == [];
    } else {
      BitsValSnoc(bits[1..], b);
      assert (bits + [b])[1..] == bits[1..] + [b];
    }
  }

  // ---------------------------------------------------------------- the size of a stream

  /** The size of a stream in bits, before the last flag byte is filled up. */
  function Weight(evs: seq<Event>): nat {
    if evs == [] then 0 else Weight(evs[..|evs| - 1]) + (if evs[|evs| - 1].Bit? then 1 else 8)
  }

  lemma {:induction false} WeightConcat(a: seq<Event>, b: seq<Event>)
    ensures Weight(a + b) == Weight(a) + Weight(b)
  {
    if b == [] {
      assert a + b == a;
    } else {
      WeightConcat(a, b[..|b| - 1]);
      assert (a + b)[..|a + b| - 1] == a + b[..|b| - 1];
    }
  }

  /** `p` takes one byte for every eight bits of `w`, rounded up, and has just begun a flag byte when
      one bit is over. */
  ghost predicate Sized(p: Packed, w: nat)
    requires p.Valid()
  {
    && |p.cells| == (w + 7) / 8
    && if p.cur < 0 then w == 0 else w > 0 && |p.cells[p.cur].bits| == (w - 1) % 8 + 1
  }

  lemma SizedOne(p: Packed, w: nat, e: Event)
    requires p.Valid() && Sized(p, w)
    requires e.Byte? ==> p.cur >= 0
    ensures Sized(PackOne(p, e), w + (if e.Bit? then 1 else 8))
  {
    if e.Byte? {
      assert (w + 8 - 1) % 8 == (w - 1) % 8;
    }
  }

  /** A packed stream takes one byte for every eight bits of weight, rounded up. */
  lemma {:induction false} PackedSize(evs: seq<Event>)
    requires Startable(evs)
    ensures Sized(Pack(evs), Weight(evs))
  {
    if evs != [] {
      var front := evs[..|evs| - 1];
      PackedSize(front);
      SizedOne(Pack(front), Weight(front), evs[|evs| - 1]);
    }
  }

  // ---------------------------------------------------------------- reading

  /** Where the decompressor is: `flags` holds the `bitPos` bits it has fetched but not used. */
  datatype Reader = Reader(src: seq<byte>, pos: nat, flags: nat, bitPos: nat)

  function Start(src: seq<byte>): Reader {
    Reader(src, 0, 0, 0)
  }

  function Room(r: Reader): nat {
    if r.pos <= |r.src| then 8 * (|r.src| - r.pos) + r.bitPos else 0
  }

  function FetchBit(r: Reader): (res: Option<(bool, Reader)>)
    ensures res.Some? ==> res.value.1.src == r.src
    ensures res.Some? && r.pos <= |r.src| ==> Room(res.value.1) < Room(r) && res.value.1.pos <= |r.src|
  {
    if r.bitPos == 0 then
      if r.pos >= |r.src| then None
      else Some((r.src[r.pos] % 2 == 1, Reader(r.src, r.pos + 1, r.src[r.pos] / 2, 7)))
    else Some((r.flags % 2 == 1, Reader(r.src, r.pos, r.flags / 2, r.bitPos - 1)))
  }

  function FetchByte(r: Reader): (res: Option<(byte, Reader)>)
    ensures res.Some? ==> res.value.1.src == r.src
    ensures res.Some? && r.pos <= |r.src| ==> Room(res.value.1) < Room(r) && res.value.1.pos <= |r.src|
  {
    if r.pos >= |r.src| then None
    else Some((r.src[r.pos], r.(pos := r.pos + 1)))
  }

  /** `r` is about to fetch exactly `evs`, as the decompressor asks for them. */
  ghost predicate Reads(r: Reader, evs: seq<Event>)
    decreases |evs|
  {
    evs == [] ||
    match evs[0]
    case Bit(b) =>
      var f := FetchBit(r);
      f.Some? && f.value.0 == b && Reads(f.value.1, evs[1..])
    case Byte(x) =>
      var f := FetchByte(r);
      f.Some? && f.value.0 == x && Reads(f.value.1, evs[1..])
  }

  /** `all` continues `part`: data cells are final, a flag byte may only gain bits. */
  ghost predicate Extends(part: seq<Cell>, all: seq<Cell>) {
    && |part| <= |all|
    && forall i :: 0 <= i < |part| ==> ExtendsCell(part[i], all[i])
  }

  ghost predicate ExtendsCell(c: Cell, d: Cell) {
    if c.Data? then d == c else d.Flags? && c.bits <= d.bits
  }

  lemma {:induction false} PackExtends(part: seq<Event>, all: seq<Event>)
    requires part <= all && Startable(all)
    ensures Startable(part)
    ensures Extends(Pack(part).cells, Pack(all).cells)
    decreases |all|
  {
    if |part| < |all| {
      var front := all[..|all| - 1];
      PackExtends(part, front);
      assert part <= front;
      assert forall i :: 0 <= i < |Pack(front).cells| ==> ExtendsCell(Pack(front).cells[i], Pack(all).cells[i]);
    } else {
      assert part == all;
    }
  }

  /** The reader of a stream `whole` that has consumed `part`. */
  ghost function ReaderBehind(part: Packed, whole: seq<Cell>): Reader
    requires part.Valid() && Extends(part.cells, whole)
  {
    if part.cur < 0 then Start(Render(whole))
    else
      var used := |part.cells[part.cur].bits|;
      assert ExtendsCell(part.cells[part.cur], whole[part.cur]);
      Reader(Render(whole), |part.cells|, BitsVal(whole[part.cur].bits[used..]), 8 - used)
  }

  lemma BitsValCons(bits: seq<bool>)
    requires bits != []
    ensures BitsVal(bits) % 2 == (if bits[0] then 1 else 0)
    ensures BitsVal(bits) / 2 == BitsVal(bits[1..])
  {
  }

  ghost predicate Fetches(r: Reader, e: Event, after: Reader) {
    match e
    case Bit(b) => FetchBit(r) == Some((b, after))
    case Byte(x) => FetchByte(r) == Some((x, after))
  }

  lemma ReaderByte(part: Packed, x: byte, whole: seq<Cell>)
    requires part.Valid() && part.cur >= 0
    requires Extends(part.cells, whole) && Extends(PackOne(part, Byte(x)).cells, whole)
    ensures Fetches(ReaderBehind(part, whole), Byte(x), ReaderBehind(PackOne(part, Byte(x)), whole))
  {
    var next := PackOne(part, Byte(x));
    assert ExtendsCell(next.cells[|part.cells|], whole[|part.cells|]);
    assert next.cells[next.cur] == part.cells[part.cur];
  }

  lemma ReaderNewFlags(part: Packed, b: bool, whole: seq<Cell>)
    requires part.Valid() && (part.cur >= 0 ==> |part.cells[part.cur].bits| == 8)
    requires Extends(part.cells, whole) && Extends(PackOne(part, Bit(b)).cells, whole)
    ensures Fetches(ReaderBehind(part, whole), Bit(b), ReaderBehind(PackOne(part, Bit(b)), whole))
  {
    var next := PackOne(part, Bit(b));
    var at := |part.cells|;
    assert next.cells[at] == Flags([b]);
    assert ExtendsCell(next.cells[at], whole[at]);
    var bits := whole[at].bits;
    assert bits[0] == b;
    BitsValCons(bits);
    assert Render(whole)[at] == BitsVal(bits);
    if part.cur >= 0 {
      assert ExtendsCell(part.cells[part.cur], whole[part.cur]);
    }
    assert ReaderBehind(part, whole).bitPos == 0;
  }

  lemma ReaderNextFlag(part: Packed, b: bool, whole: seq<Cell>)
    requires part.Valid() && part.cur >= 0 && |part.cells[part.cur].bits| < 8
    requires Extends(part.cells, whole) && Extends(PackOne(part, Bit(b)).cells, whole)
    ensures Fetches(ReaderBehind(part, whole), Bit(b), ReaderBehind(PackOne(part, Bit(b)), whole))
  {
    var next := PackOne(part, Bit(b));
    assert ExtendsCell(part.cells[part.cur], whole[part.cur]);
    assert ExtendsCell(next.cells[part.cur], whole[part.cur]);
    var bits := whole[part.cur].bits;
    var used := |part.cells[part.cur].bits|;
    assert next.cells[part.cur].bits == part.cells[part.cur].bits + [b];
    assert next.cells[part.cur].bits[used] == b;
    assert bits[used..][1..] == bits[used + 1..];
    BitsValCons(bits[used..]);
  }

  lemma ReaderStep(part: Packed, e: Event, whole: seq<Cell>)
    requires part.Valid() && (e.Byte? ==> part.cur >= 0)
    requires Extends(part.cells, whole) && Extends(PackOne(part, e).cells, whole)
    ensures Fetches(ReaderBehind(part, whole), e, ReaderBehind(PackOne(part, e), whole))
  {
    if e.Byte? {
      ReaderByte(part, e.val, whole);
    } else if part.cur < 0 || |part.cells[part.cur].bits| == 8 {
      ReaderNewFlags(part, e.bit, whole);
    } else {
      ReaderNextFlag(part, e.bit, whole);
    }
  }

  lemma {:induction false} ReadsFrom(all: seq<Event>, k: nat)
    requires k <= |all| && Startable(all)
    ensures Startable(all[..k]) && Extends(Pack(all[..k]).cells, Pack(all).cells)
    ensures Reads(ReaderBehind(Pack(all[..k]), Pack(all).cells), all[k..])
    decreases |all| - k
  {
    PackExtends(all[..k], all);
    if k < |all| {
      ReadsFrom(all, k + 1);
      assert all[..k + 1][..k] == all[..k];
      assert Pack(all[..k + 1]) == PackOne(Pack(all[..k]), all[k]);
      ReaderStep(Pack(all[..k]), all[k], Pack(all).cells);
      assert all[k..][1..] == all[k + 1..];
    }
  }

  /** A reader at the start of a packed stream fetches exactly what was packed. */
  lemma PackedReads(evs: seq<Event>)
    requires Startable(evs)
    ensures Reads(Start(Render(Pack(evs).cells)), evs)
  {
    ReadsFrom(evs, 0);
    assert evs[..0] == [];
    assert evs[0..] == evs;
  }
}
