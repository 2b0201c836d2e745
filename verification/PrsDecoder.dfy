/**
 The PRS decompressor, with its context record.

 The three public entry points differ in where the output goes: a buffer that doubles when it is
 full, a buffer of the caller's, or nowhere (only the size is wanted).
 */
module PrsDecoder {
  import opened Bytes
  import opened PrsStream
  import opened PrsFormat

  datatype Output = Growing | Fixed | Counting

  class Decoder {
    const src: seq<byte>
    const output: Output
    var flags: byte
    var bitPos: nat
    var srcPos: nat
    var dst: array<byte>
    var dstPos: nat
    ghost var out: seq<byte>   // everything put out so far

    constructor (src: seq<byte>, output: Output, dst: array<byte>)
      requires output.Growing? ==> dst.Length > 0
      ensures Valid() && this.src == src && this.output == output && this.dst == dst
      ensures At() == Start(src) && out == []
    {
      this.src, this.output, this.dst := src, output, dst;
      flags, bitPos, srcPos, dstPos := 0, 0, 0, 0;
      out := [];
    }

    ghost predicate Valid()
      reads this, dst
    {
      && srcPos <= |src|
      && dstPos == |out|
      && (output.Growing? ==> dst.Length > 0)
      && (!output.Counting? ==> dstPos <= dst.Length && dst[..dstPos] == out)
    }

    ghost function At(): Reader
      reads this
    {
      Reader(src, srcPos, flags, bitPos)
    }

    ghost function Limit(): Option<nat>
      reads this
    {
      if output.Fixed? then Some(dst.Length) else None
    }

    method FetchBit() returns (rv: int)
      requires Valid()
      modifies this`flags, this`bitPos, this`srcPos
      ensures Valid()
      ensures match PrsStream.FetchBit(old(At()))
              case None => rv == EBADMSG
              case Some((b, r)) => rv == (if b then 1 else 0) && At() == r
    {
      if bitPos == 0 {
        if srcPos >= |src| {
          return EBADMSG;
        }
        flags := src[srcPos];
        srcPos := srcPos + 1;
        bitPos := 8;
      }
      rv := flags % 2;
      flags := flags / 2;
      bitPos := bitPos - 1;
    }

    method FetchByte() returns (rv: int)
      requires Valid()
      modifies this`srcPos
      ensures Valid()
      ensures match PrsStream.FetchByte(old(At()))
              case None => rv == EBADMSG
              case Some((x, r)) => rv == x && At() == r
    {
      if srcPos >= |src| {
        return EBADMSG;
      }
      rv := src[srcPos];
      srcPos := srcPos + 1;
    }

    method FetchShort() returns (rv: int)
      requires Valid()
      modifies this`srcPos
      ensures Valid()
      ensures match PrsFormat.FetchShort(old(At()))
              case None => rv == EBADMSG
              case Some((w, r)) => rv == w && At() == r
    {
      if srcPos + 1 >= |src| {
        return EBADMSG;
      }
      rv := src[srcPos] as int + 256 * (src[srcPos + 1] as int);
      srcPos := srcPos + 2;
    }

    /** Makes room in a growing buffer. */
    method Grow()
      requires Valid() && output.Growing?
      modifies this`dst
      ensures Valid() && dstPos < dst.Length
      ensures fresh(dst) || dst == old(dst)
    {
      if dstPos >= dst.Length {
        var bigger := new byte[dst.Length * 2];
        forall i | 0 <= i < dstPos {
          bigger[i] := dst[i];
        }
        assert bigger[..dstPos] == dst[..dstPos];
        dst := bigger;
      }
    }

    /** Stores one byte of output at the current position. */
    method Put(x: byte)
      requires Valid() && (output.Fixed? ==> dstPos < dst.Length)
      modifies this`dst, this`dstPos, this`out, dst
      ensures Valid() && out == old(out) + [x]
      ensures fresh(dst) || dst == old(dst)
      ensures output.Fixed? ==> dst == old(dst)
    {
      if output.Growing? {
        Grow();
      }
      if !output.Counting? {
        dst[dstPos] := x;
        assert dst[..dstPos + 1] == dst[..dstPos] + [x];
      }
      dstPos := dstPos + 1;
      out := out + [x];
    }

    method CopyByte() returns (rv: int)
      requires Valid()
      modifies this`srcPos, this`dst, this`dstPos, this`out, dst
      ensures Valid() && (fresh(dst) || dst == old(dst)) && (output.Fixed? ==> dst == old(dst))
      ensures match PrsStream.FetchByte(old(At()))
              case None => rv == EBADMSG
              case Some((x, r)) =>
                if Full(|old(out)|, old(Limit())) then rv == ENOSPC
                else rv == 0 && At() == r && out == old(out) + [x]
    {
      if srcPos >= |src| {
        return EBADMSG;
      }
      if output.Fixed? && dstPos >= dst.Length {
        return ENOSPC;
      }
      Put(src[srcPos]);
      srcPos := srcPos + 1;
      rv := 0;
    }

    method OffsetCopy(offset: int) returns (rv: int)
      requires Valid() && offset < 0
      modifies this`dst, this`dstPos, this`out, dst
      ensures Valid() && (fresh(dst) || dst == old(dst)) && (output.Fixed? ==> dst == old(dst))
      ensures if |old(out)| < -offset then rv == EBADMSG
              else if Full(|old(out)|, old(Limit())) then rv == ENOSPC
              else rv == 0 && out == old(out) + [old(out)[|old(out)| + offset]]
    {
      var tmp := dstPos + offset;
      if tmp < 0 {
        return EBADMSG;
      }
      if output.Fixed? && dstPos >= dst.Length {
        return ENOSPC;
      }
      if output.Counting? {
        out := out + [out[tmp]];
        dstPos := dstPos + 1;
      } else {
        assert dst[tmp] == dst[..dstPos][tmp];
        Put(dst[tmp]);
      }
      rv := 0;
    }

    /** The copy loop at the end of every round. */
    method CopyAll(count: nat, offset: int) returns (rv: int)
      requires Valid() && offset < 0
      modifies this`dst, this`dstPos, this`out, dst
      ensures Valid() && (fresh(dst) || dst == old(dst)) && (output.Fixed? ==> dst == old(dst))
      ensures match CopyOut(old(out), -offset, count, old(Limit()))
              case Err(e) => rv == e < 0
              case Ok(o) => rv == 0 && out == o
    {
      var size := count;
      while size > 0
        invariant Valid() && (fresh(dst) || dst == old(dst)) && (output.Fixed? ==> dst == old(dst))
        invariant CopyOut(out, -offset, size, Limit()) == CopyOut(old(out), -offset, count, old(Limit()))
      {
        rv := OffsetCopy(offset);
        if rv < 0 {
          return;
        }
        size := size - 1;
      }
      rv := 0;
    }

    /** The rest of a round that began with a zero bit: the number of bytes to copy, or 0 at the end
        of the stream, and the offset to copy them from. */
    method FetchCopy() returns (rv: int, size: nat, offset: int)
      requires Valid()
      modifies this`flags, this`bitPos, this`srcPos
      ensures Valid()
      ensures match FetchStep(old(At()))
              case None => rv == EBADMSG
              case Some((End, _)) => rv == 0 && size == 0
              case Some((Copy(n, dist), r)) => rv == 0 && size == n > 0 && offset + dist == 0 && At() == r
    {
      size, offset := 0, 0;
      rv := FetchBit();
      if rv < 0 {
        return;
      }
      if rv == 1 {
        rv := FetchShort();
        if rv < 0 {
          return;
        }
        if rv == 0 {
          return;
        }
        size := rv % 8;
        offset := rv / 8 - 0x2000;
        if size == 0 {
          rv := FetchByte();
          if rv < 0 {
            return;
          }
          size := rv + 1;
        } else {
          size := size + 2;
        }
      } else {
        var hi := FetchBit();
        if hi < 0 {
          return hi, 0, 0;
        }
        var lo := FetchBit();
        if lo < 0 {
          return lo, 0, 0;
        }
        size := lo + 2 * hi + 2;
        rv := FetchByte();
        if rv < 0 {
          return;
        }
        offset := rv - 0x100;
      }
      rv := 0;
    }

    /** One round of the decompression loop. */
    method Round() returns (rv: int, done: bool)
      requires Valid()
      modifies this, dst
      ensures Valid() && (fresh(dst) || dst == old(dst)) && (output.Fixed? ==> dst == old(dst))
      ensures At().src == old(At()).src
      ensures var all := Decode(old(At()), old(out), old(Limit()));
              if rv < 0 then all == Err(rv)
              else if done then all == Ok(out)
              else Room(At()) < Room(old(At())) && all == Decode(At(), out, Limit())
    {
      hide FetchStep, CopyOut, PrsStream.FetchBit, PrsStream.FetchByte;
      done := false;
      rv := FetchBit();
      if rv < 0 {
        return;
      }
      if rv == 1 {
        rv := CopyByte();
      } else {
        var size, offset;
        rv, size, offset := FetchCopy();
        if rv < 0 {
          return;
        }
        if size == 0 {
          return 0, true;
        }
        rv := CopyAll(size, offset);
      }
    }

    /** Runs to the end of the stream or to the first error. */
    method DoDecompress() returns (rv: int)
      requires Valid()
      modifies this, dst
      ensures Valid() && (fresh(dst) || dst == old(dst)) && (output.Fixed? ==> dst == old(dst))
      ensures match Decode(old(At()), old(out), old(Limit()))
              case Ok(o) => rv == |o| && out == o
              case Err(e) => rv == e < 0
    {
      while true
        invariant Valid() && (fresh(dst) || dst == old(dst)) && (output.Fixed? ==> dst == old(dst))
        invariant At().src == old(At()).src
        invariant Decode(At(), out, Limit()) == Decode(old(At()), old(out), old(Limit()))
        decreases Room(At())
      {
        var done;
        rv, done := Round();
        if rv < 0 {
          return;
        }
        if done {
          return dstPos;
        }
      }
    }
  }

  /** Decompresses into a buffer that grows as needed. */
  method DecompressBuf(src: seq<byte>) returns (rv: int, dst: seq<byte>)
    ensures match Decompress(src, None)
            case Ok(o) => rv == |o| && dst == o
            case Err(e) => rv == e && dst == []
  {
    if |src| == 0 {
      return EINVAL, [];
    }
    if |src| < 3 {
      return EBADMSG, [];
    }
    var buf := new byte[|src| * 2];
    var cxt := new Decoder(src, Growing, buf);
    rv := cxt.DoDecompress();
    dst := if rv < 0 then [] else cxt.dst[..rv];
  }

  /** Decompresses into the caller's buffer. */
  method DecompressBuf2(src: seq<byte>, dst: array<byte>) returns (rv: int)
    modifies dst
    ensures match Decompress(src, Some(dst.Length))
            case Ok(o) => rv == |o| <= dst.Length && dst[..rv] == o
            case Err(e) => rv == e
  {
    if |src| == 0 || dst.Length == 0 {
      return EINVAL;
    }
    if |src| < 3 {
      return EBADMSG;
    }
    var cxt := new Decoder(src, Fixed, dst);
    rv := cxt.DoDecompress();
  }

  /** Finds the decompressed size without storing anything. */
  method DecompressSize(src: seq<byte>) returns (rv: int)
    ensures match Decompress(src, None)
            case Ok(o) => rv == |o|
            case Err(e) => rv == e
  {
    if |src| == 0 {
      return EINVAL;
    }
    if |src| < 3 {
      return EBADMSG;
    }
    var none := new byte[0];
    var cxt := new Decoder(src, Counting, none);
    rv := cxt.DoDecompress();
  }
}
