/**
 The PRS format: what a compressed stream means.

 A token is one step of the compressor's output.  `Events` is its encoding, `Decode` the
 decompressor's reading of a byte stream, and `DecodeTokens` relates the two: decoding a packed
 token list expands exactly the tokens up to the first one whose encoding is the end marker.
 */
module PrsFormat {
  import opened Bytes
  import opened PrsStream

  const EINVAL := -22
  const ENOSPC := -28
  const EBADMSG := -74

  const MAX_WINDOW := 0x2000

  datatype Token =
    | Literal(val: byte)
    | ShortCopy(len: nat, dist: nat)     // 2 to 5 bytes, at most 256 back
    | LongCopy(len: nat, dist: nat)      // 3 to 9 bytes, anywhere in the window
    | ExtCopy(len: nat, dist: nat)       // up to 256 bytes, with a length byte of its own
  {
    predicate Valid() {
      match this
      case Literal(_) => true
      case ShortCopy(len, dist) => 2 <= len <= 5 && 1 <= dist <= 256
      case LongCopy(len, dist) => 3 <= len <= 9 && 1 <= dist <= MAX_WINDOW
      case ExtCopy(len, dist) => 1 <= len <= 256 && 1 <= dist <= MAX_WINDOW
    }

    function Span(): nat {
      if Literal? then 1 else len
    }

    /** The one kind of token whose two offset bytes are both zero. */
    predicate LooksLikeEnd() {
      ExtCopy? && dist == MAX_WINDOW
    }
  }

  function Events(t: Token): (evs: seq<Event>)
    requires t.Valid()
    ensures |evs| > 0 && evs[0].Bit?
  {
    match t
    case Literal(x) => [Bit(true), Byte(x)]
    case ShortCopy(len, dist) =>
      [Bit(false), Bit(false), Bit((len - 2) / 2 == 1), Bit((len - 2) % 2 == 1), Byte(256 - dist)]
    case LongCopy(len, dist) =>
      [Bit(false), Bit(true)] + OffsetBytes(dist, len - 2)
    case ExtCopy(len, dist) =>
      [Bit(false), Bit(true)] + OffsetBytes(dist, 0) + [Byte(len - 1)]
  }

  function OffsetBytes(dist: nat, low: nat): seq<Event>
    requires 1 <= dist <= MAX_WINDOW && low < 8
  {
    [Byte((MAX_WINDOW - dist) % 32 * 8 + low), Byte((MAX_WINDOW - dist) / 32)]
  }

  const END: seq<Event> := [Bit(false), Bit(true), Byte(0), Byte(0)]

  /** The tokens of a stream, in order. */
  datatype Tokens = Stop | More(head: Token, tail: Tokens)

  ghost predicate AllValid(ts: Tokens) {
    ts.More? ==> ts.head.Valid() && AllValid(ts.tail)
  }

  /** The events of a whole stream. */
  function StreamEvents(ts: Tokens): (evs: seq<Event>)
    requires AllValid(ts)
    ensures |evs| > 0 && evs[0].Bit?
  {
    match ts
    case Stop => END
    case More(t, rest) => Events(t) + StreamEvents(rest)
  }

  // ---------------------------------------------------------------- what tokens stand for

  /** Appends `len` bytes, each copied from `dist` back; the copy may overlap its own output. */
  function CopyBack(out: seq<byte>, dist: nat, len: nat): (r: seq<byte>)
    requires 1 <= dist <= |out|
    ensures |r| == |out| + len
    decreases len
  {
    if len == 0 then out else CopyBack(out + [out[|out| - dist]], dist, len - 1)
  }

  predicate Applies(t: Token, size: nat) {
    t.Literal? || 1 <= t.dist <= size
  }

  function Apply(out: seq<byte>, t: Token): (r: seq<byte>)
    requires Applies(t, |out|)
    ensures |r| == |out| + t.Span()
  {
    if t.Literal? then out + [t.val] else CopyBack(out, t.dist, t.len)
  }

  /** No token reaches back before the start of the output. */
  ghost predicate Reach(ts: Tokens, size: nat) {
    ts.More? ==> Applies(ts.head, size) && Reach(ts.tail, size + ts.head.Span())
  }

  function Expand(ts: Tokens, out: seq<byte>): (r: seq<byte>)
    requires Reach(ts, |out|)
    ensures |r| >= |out|
  {
    match ts
    case Stop => out
    case More(t, rest) => Expand(rest, Apply(out, t))
  }

  lemma {:induction false} CopyBackExtends(out: seq<byte>, dist: nat, len: nat)
    requires 1 <= dist <= |out|
    ensures out <= CopyBack(out, dist, len)
    decreases len
  {
    if len > 0 {
      CopyBackExtends(out + [out[|out| - dist]], dist, len - 1);
    }
  }

  /** Later tokens never change what earlier ones put out. */
  lemma {:induction false} ExpandExtends(ts: Tokens, out: seq<byte>)
    requires Reach(ts, |out|)
    ensures out <= Expand(ts, out)
  {
    if ts.More? {
      if !ts.head.Literal? {
        CopyBackExtends(out, ts.head.dist, ts.head.len);
      }
      ExpandExtends(ts.tail, Apply(out, ts.head));
    }
  }

  /** Some token is encoded like the end of the stream. */
  predicate HasEnd(ts: Tokens) {
    ts.More? && (ts.head.LooksLikeEnd() || HasEnd(ts.tail))
  }

  /** The tokens before the first one that is encoded like the end of the stream. */
  function UntilEnd(ts: Tokens): Tokens {
    if ts.Stop? || ts.head.LooksLikeEnd() then Stop else More(ts.head, UntilEnd(ts.tail))
  }

  lemma {:induction false} UntilEndReach(ts: Tokens, size: nat)
    requires Reach(ts, size)
    ensures Reach(UntilEnd(ts), size)
  {
    if ts.More? && !ts.head.LooksLikeEnd() {
      UntilEndReach(ts.tail, size + ts.head.Span());
    }
  }

  // ---------------------------------------------------------------- decoding

  datatype Step = End | Copy(size: nat, dist: nat)

  function FetchShort(r: Reader): (res: Option<(nat, Reader)>)
    requires r.pos <= |r.src|
    ensures res.Some? ==>
      res.value.1.src == r.src && res.value.1.pos <= |r.src| && Room(res.value.1) < Room(r) && res.value.0 < 65536
  {
    if r.pos + 1 >= |r.src| then None
    else Some((r.src[r.pos] as nat + 256 * (r.src[r.pos + 1] as nat), r.(pos := r.pos + 2)))
  }

  /** The rest of a step whose first flag bit is zero. */
  function FetchStep(r: Reader): (res: Option<(Step, Reader)>)
    requires r.pos <= |r.src|
    ensures res.Some? ==>
      && res.value.1.src == r.src && res.value.1.pos <= |r.src| && Room(res.value.1) < Room(r)
      && (res.value.0.Copy? ==> res.value.0.dist >= 1)
  {
    match FetchBit(r)
    case None => None
    case Some((true, r1)) =>
      (match FetchShort(r1)
       case None => None
       case Some((w, r2)) =>
         if w == 0 then Some((End, r2))
         else if w % 8 != 0 then Some((Copy(w % 8 + 2, 8192 - w / 8), r2))
         else
           match FetchByte(r2)
           case None => None
           case Some((x, r3)) => Some((Copy(x + 1, 8192 - w / 8), r3)))
    case Some((false, r1)) =>
      match FetchBit(r1)
      case None => None
      case Some((hi, r2)) =>
        match FetchBit(r2)
        case None => None
        case Some((lo, r3)) =>
          match FetchByte(r3)
          case None => None
          case Some((x, r4)) =>
            Some((Copy((if hi then 2 else 0) + (if lo then 1 else 0) + 2, 256 - x), r4))
  }

  /** `limit` is the room in the output, if it is limited. */
  predicate Full(size: nat, limit: Option<nat>) {
    limit.Some? && size >= limit.value
  }

  function CopyOut(out: seq<byte>, dist: nat, len: nat, limit: Option<nat>): (r: Result<seq<byte>>)
    requires dist >= 1
    decreases len
  {
    if len == 0 then Ok(out)
    else if |out| < dist then Err(EBADMSG)
    else if Full(|out|, limit) then Err(ENOSPC)
    else CopyOut(out + [out[|out| - dist]], dist, len - 1, limit)
  }

  /** The decompressor, from any point of its input. */
  function Decode(r: Reader, out: seq<byte>, limit: Option<nat>): (res: Result<seq<byte>>)
    requires r.pos <= |r.src|
    ensures res.Err? ==> res.code == EBADMSG || res.code == ENOSPC
    decreases Room(r)
  {
    match FetchBit(r)
    case None => Err(EBADMSG)
    case Some((true, r1)) =>
      (match FetchByte(r1)
       case None => Err(EBADMSG)
       case Some((x, r2)) =>
         if Full(|out|, limit) then Err(ENOSPC) else Decode(r2, out + [x], limit))
    case Some((false, r1)) =>
      match FetchStep(r1)
      case None => Err(EBADMSG)
      case Some((End, _)) => Ok(out)
      case Some((Copy(size, dist), r2)) =>
        match CopyOut(out, dist, size, limit)
        case Err(e) => CopyOutErr(out, dist, size, limit); Err(e)
        case Ok(longer) => Decode(r2, longer, limit)
  }

  lemma CopyOutErr(out: seq<byte>, dist: nat, len: nat, limit: Option<nat>)
    requires dist >= 1
    ensures var r := CopyOut(out, dist, len, limit); r.Err? ==> r.code == EBADMSG || r.code == ENOSPC
    decreases len
  {
  }

  /** A compressed buffer: too short ones are refused before anything is read. */
  function Decompress(src: seq<byte>, limit: Option<nat>): Result<seq<byte>> {
    if src == [] || limit == Some(0) then Err(EINVAL)
    else if |src| < 3 then Err(EBADMSG)
    else Decode(Start(src), [], limit)
  }

  // ---------------------------------------------------------------- decoding inverts encoding

  lemma {:induction false} CopyOutIsCopyBack(out: seq<byte>, dist: nat, len: nat)
    requires 1 <= dist <= |out|
    ensures CopyOut(out, dist, len, None) == Ok(CopyBack(out, dist, len))
    decreases len
  {
    if len > 0 {
      CopyOutIsCopyBack(out + [out[|out| - dist]], dist, len - 1);
    }
  }

  lemma ReadsBit(r: Reader, b: bool, evs: seq<Event>) returns (after: Reader)
    requires Reads(r, [Bit(b)] + evs)
    ensures FetchBit(r) == Some((b, after)) && Reads(after, evs)
  {
    assert ([Bit(b)] + evs)[1..] == evs;
    after := FetchBit(r).value.1;
  }

  lemma ReadsByte(r: Reader, x: byte, evs: seq<Event>) returns (after: Reader)
    requires Reads(r, [Byte(x)] + evs)
    ensures FetchByte(r) == Some((x, after)) && Reads(after, evs)
  {
    assert ([Byte(x)] + evs)[1..] == evs;
    after := FetchByte(r).value.1;
  }

  lemma ReadsShort(r: Reader, x: byte, y: byte, evs: seq<Event>) returns (after: Reader)
    requires r.pos <= |r.src|
    requires Reads(r, [Byte(x), Byte(y)] + evs)
    ensures FetchShort(r) == Some((x + 256 * y, after)) && Reads(after, evs)
  {
    assert [Byte(x), Byte(y)] + evs == [Byte(x)] + ([Byte(y)] + evs);
    var r1 := ReadsByte(r, x, [Byte(y)] + evs);
    after := ReadsByte(r1, y, evs);
  }

  /** What the decompressor makes of a copy token. */
  function Meaning(t: Token): Step
    requires t.Valid() && !t.Literal?
  {
    if t.LooksLikeEnd() then End else Copy(t.len, t.dist)
  }

  lemma ReadsShortCopy(r: Reader, t: Token, evs: seq<Event>) returns (after: Reader)
    requires t.ShortCopy? && t.Valid() && r.pos <= |r.src|
    requires Reads(r, Events(t)[1..] + evs)
    ensures FetchStep(r) == Some((Meaning(t), after)) && Reads(after, evs)
  {
    var n := t.len - 2;
    var tail := [Byte(256 - t.dist)] + evs;
    assert Events(t)[1..] + evs == [Bit(false)] + ([Bit(n / 2 == 1)] + ([Bit(n % 2 == 1)] + tail));
    var r1 := ReadsBit(r, false, [Bit(n / 2 == 1)] + ([Bit(n % 2 == 1)] + tail));
    var r2 := ReadsBit(r1, n / 2 == 1, [Bit(n % 2 == 1)] + tail);
    var r3 := ReadsBit(r2, n % 2 == 1, tail);
    after := ReadsByte(r3, 256 - t.dist, evs);
  }

  lemma ReadsFarCopy(r: Reader, t: Token, evs: seq<Event>) returns (after: Reader)
    requires (t.LongCopy? || t.ExtCopy?) && t.Valid() && r.pos <= |r.src|
    requires Reads(r, Events(t)[1..] + evs)
    ensures !t.LooksLikeEnd() ==> FetchStep(r) == Some((Meaning(t), after)) && Reads(after, evs)
    ensures t.LooksLikeEnd() ==> FetchStep(r) == Some((End, after))
  {
    hide Reads, FetchBit, FetchByte;
    var u := MAX_WINDOW - t.dist;
    var low := if t.LongCopy? then t.len - 2 else 0;
    var size := if t.LongCopy? then [] else [Byte(t.len - 1)];
    var x, y := u % 32 * 8 + low, u / 32;
    assert Events(t)[1..] + evs == [Bit(true)] + ([Byte(x), Byte(y)] + (size + evs));
    var r1 := ReadsBit(r, true, [Byte(x), Byte(y)] + (size + evs));
    var r2 := ReadsShort(r1, x, y, size + evs);
    assert x + 256 * y == 8 * u + low;
    assert (8 * u + low) / 8 == u && (8 * u + low) % 8 == low;
    if t.LongCopy? || t.LooksLikeEnd() {
      assert t.LongCopy? ==> size + evs == evs;
      after := r2;
    } else {
      after := ReadsByte(r2, t.len - 1, evs);
    }
  }

  lemma ReadsCopy(r: Reader, t: Token, evs: seq<Event>) returns (after: Reader)
    requires !t.Literal? && t.Valid() && r.pos <= |r.src|
    requires Reads(r, Events(t) + evs)
    ensures FetchBit(r).Some? && FetchBit(r).value.0 == false
    ensures FetchStep(FetchBit(r).value.1) == Some((Meaning(t), after))
    ensures !t.LooksLikeEnd() ==> Reads(after, evs)
  {
    assert Events(t) + evs == [Bit(false)] + (Events(t)[1..] + evs);
    var r1 := ReadsBit(r, false, Events(t)[1..] + evs);
    if t.ShortCopy? {
      after := ReadsShortCopy(r1, t, evs);
    } else {
      after := ReadsFarCopy(r1, t, evs);
    }
  }

  lemma DecodesEnd(r: Reader, out: seq<byte>)
    requires r.pos <= |r.src| && Reads(r, END)
    ensures Decode(r, out, None) == Ok(out)
  {
    assert END == [Bit(false)] + ([Bit(true)] + ([Byte(0), Byte(0)] + []));
    var r1 := ReadsBit(r, false, [Bit(true)] + ([Byte(0), Byte(0)] + []));
    var r2 := ReadsBit(r1, true, [Byte(0), Byte(0)] + []);
    var r3 := ReadsShort(r2, 0, 0, []);
  }

  lemma DecodesLiteral(r: Reader, x: byte, evs: seq<Event>, out: seq<byte>) returns (after: Reader)
    requires r.pos <= |r.src| && Reads(r, Events(Literal(x)) + evs)
    ensures after.pos <= |after.src| && Room(after) < Room(r) && Reads(after, evs)
    ensures Decode(r, out, None) == Decode(after, out + [x], None)
  {
    assert Events(Literal(x)) + evs == [Bit(true)] + ([Byte(x)] + evs);
    var r1 := ReadsBit(r, true, [Byte(x)] + evs);
    after := ReadsByte(r1, x, evs);
  }

  lemma DecodesCopy(r: Reader, t: Token, evs: seq<Event>, out: seq<byte>) returns (after: Reader)
    requires !t.Literal? && t.Valid() && Applies(t, |out|)
    requires r.pos <= |r.src| && Reads(r, Events(t) + evs)
    ensures t.LooksLikeEnd() ==> Decode(r, out, None) == Ok(out)
    ensures !t.LooksLikeEnd() ==>
      && after.pos <= |after.src| && Room(after) < Room(r) && Reads(after, evs)
      && Decode(r, out, None) == Decode(after, Apply(out, t), None)
  {
    after := ReadsCopy(r, t, evs);
    CopyOutIsCopyBack(out, t.dist, t.len);
  }

  lemma DecodesToken(r: Reader, t: Token, evs: seq<Event>, out: seq<byte>) returns (after: Reader)
    requires t.Valid() && Applies(t, |out|)
    requires r.pos <= |r.src| && Reads(r, Events(t) + evs)
    ensures t.LooksLikeEnd() ==> Decode(r, out, None) == Ok(out)
    ensures !t.LooksLikeEnd() ==>
      && after.pos <= |after.src| && Room(after) < Room(r) && Reads(after, evs)
      && Decode(r, out, None) == Decode(after, Apply(out, t), None)
  {
    if t.Literal? {
      after := DecodesLiteral(r, t.val, evs, out);
    } else {
      after := DecodesCopy(r, t, evs, out);
    }
  }

  /** Decoding the encoding of any tokens expands those before the first that looks like the end. */
  lemma {:induction false} DecodesTokens(r: Reader, ts: Tokens, out: seq<byte>)
    requires AllValid(ts) && Reach(ts, |out|) && r.pos <= |r.src|
    requires Reads(r, StreamEvents(ts))
    ensures Reach(UntilEnd(ts), |out|)
    ensures Decode(r, out, None) == Ok(Expand(UntilEnd(ts), out))
    decreases ts
  {
    hide Reads, Decode, Apply, Events;
    UntilEndReach(ts, |out|);
    match ts
    case Stop => DecodesEnd(r, out);
    case More(t, rest) =>
      var after := DecodesToken(r, t, StreamEvents(rest), out);
      if !t.LooksLikeEnd() {
        DecodesTokens(after, rest, Apply(out, t));
      }
  }

  /** The file the compressor writes for a token list. */
  function Encode(ts: Tokens): seq<byte>
    requires AllValid(ts)
  {
    Render(Pack(StreamEvents(ts)).cells)
  }

  lemma DecompressesEncoding(ts: Tokens)
    requires AllValid(ts) && Reach(ts, 0)
    ensures Reach(UntilEnd(ts), 0)
    ensures Decompress(Encode(ts), None) == Ok(Expand(UntilEnd(ts), []))
  {
    var evs := StreamEvents(ts);
    PackedReads(evs);
    DecodesTokens(Start(Encode(ts)), ts, []);
    EncodingIsLong(ts);
  }

  /** Every encoding holds at least a flag byte and the two zero bytes of the end marker. */
  lemma EncodingIsLong(ts: Tokens)
    requires AllValid(ts)
    ensures |Encode(ts)| >= 3
  {
    StreamWeight(ts);
    PackedSize(StreamEvents(ts));
  }

  lemma WeightOfEnd()
    ensures Weight(END) == 18
  {
    var a := [Bit(false)];
    var b := a + [Bit(true)];
    var c := b + [Byte(0)];
    assert END == c + [Byte(0)];
    assert END[..3] == c && c[..2] == b && b[..1] == a && a[..0] == [];
    assert Weight(a) == 1;
    assert Weight(b) == 2;
    assert Weight(c) == 10;
  }

  lemma {:induction false} StreamWeight(ts: Tokens)
    requires AllValid(ts)
    ensures Weight(StreamEvents(ts)) >= 18
  {
    match ts
    case Stop => WeightOfEnd();
    case More(t, rest) =>
      StreamWeight(rest);
      WeightConcat(Events(t), StreamEvents(rest));
  }

  // ---------------------------------------------------------------- limited output

  lemma {:induction false} CopyOutLimit(out: seq<byte>, dist: nat, len: nat, limit: nat)
    requires dist >= 1 && |out| <= limit
    ensures match CopyOut(out, dist, len, None)
            case Ok(o) => |o| >= |out| &&
              CopyOut(out, dist, len, Some(limit)) == if |o| <= limit then Ok(o) else Err(ENOSPC)
            case Err(_) => CopyOut(out, dist, len, Some(limit)).Err?
    decreases len
  {
    if len > 0 && |out| >= dist {
      if |out| == limit {
        CopyOutGrows(out + [out[|out| - dist]], dist, len - 1);
      } else {
        CopyOutLimit(out + [out[|out| - dist]], dist, len - 1, limit);
      }
    }
  }

  lemma CopyOutGrows(out: seq<byte>, dist: nat, len: nat)
    requires dist >= 1
    ensures var r := CopyOut(out, dist, len, None); r.Ok? ==> |r.value| >= |out|
    decreases len
  {
  }

  lemma {:induction false} DecodeGrows(r: Reader, out: seq<byte>)
    requires r.pos <= |r.src|
    ensures var d := Decode(r, out, None); d.Ok? ==> |d.value| >= |out|
    decreases Room(r)
  {
    match FetchBit(r)
    case None =>
    case Some((true, r1)) =>
      if FetchByte(r1).Some? {
        DecodeGrows(FetchByte(r1).value.1, out + [FetchByte(r1).value.0]);
      }
    case Some((false, r1)) =>
      match FetchStep(r1)
      case None =>
      case Some((End, _)) =>
      case Some((Copy(size, dist), r2)) =>
        CopyOutGrows(out, dist, size);
        match CopyOut(out, dist, size, None)
        case Err(_) =>
        case Ok(longer) => DecodeGrows(r2, longer);
  }

  /** With limited output the result is the same if it fits, and an error if it does not. */
  lemma {:induction false} DecodeLimit(r: Reader, out: seq<byte>, limit: nat)
    requires r.pos <= |r.src| && |out| <= limit
    ensures match Decode(r, out, None)
            case Ok(o) => Decode(r, out, Some(limit)) == if |o| <= limit then Ok(o) else Err(ENOSPC)
            case Err(_) => Decode(r, out, Some(limit)).Err?
    decreases Room(r)
  {
    match FetchBit(r)
    case None =>
    case Some((true, r1)) =>
      if FetchByte(r1).Some? {
        var r2, x := FetchByte(r1).value.1, FetchByte(r1).value.0;
        if |out| == limit {
          DecodeGrows(r2, out + [x]);
        } else {
          DecodeLimit(r2, out + [x], limit);
        }
      }
    case Some((false, r1)) =>
      match FetchStep(r1)
      case None =>
      case Some((End, _)) =>
      case Some((Copy(size, dist), r2)) =>
        CopyOutLimit(out, dist, size, limit);
        match CopyOut(out, dist, size, None)
        case Err(_) =>
        case Ok(longer) =>
          if |longer| <= limit {
            DecodeLimit(r2, longer, limit);
          } else {
            DecodeGrows(r2, longer);
          }
  }

  /** A caller's buffer serves exactly when it is at least as long as the decompressed data. */
  lemma DecompressLimit(src: seq<byte>, limit: nat)
    requires Decompress(src, None).Ok? && limit > 0
    ensures Decompress(src, Some(limit)) ==
      if |Decompress(src, None).value| <= limit then Decompress(src, None) else Err(ENOSPC)
  {
    DecodeLimit(Start(src), [], limit);
  }
}
