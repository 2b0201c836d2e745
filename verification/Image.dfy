/**
 Files as the C library shows them: bytes, a position, writes that overwrite or extend, and zeros
 where a seek has left a gap.
 */
module Image {
  import opened Bytes

  type Img = seq<byte>

  function Zeros(n: nat): (z: Img)
    ensures |z| == n
  {
    seq(n, _ => 0)
  }

  /** What `fwrite` of `bs` at `pos` leaves: its bytes there, the old ones elsewhere, and zeros in a
      gap.  A write of nothing leaves the file as it is, even behind its end. */
  function Overwrite(img: Img, pos: nat, bs: Img): (r: Img)
    ensures |r| == if bs == [] || pos + |bs| <= |img| then |img| else pos + |bs|
  {
    if bs == [] then img
    else
      seq(if pos + |bs| <= |img| then |img| else pos + |bs|,
          i requires i >= 0 => if pos <= i < pos + |bs| then bs[i - pos] else if i < |img| then img[i] else 0)
  }

  lemma WrittenThere(img: Img, pos: nat, bs: Img)
    requires bs != []
    ensures Overwrite(img, pos, bs)[pos..pos + |bs|] == bs
  {
  }

  /** A write leaves the ranges below and above it alone. */
  lemma KeptElsewhere(img: Img, pos: nat, bs: Img, a: nat, b: nat)
    requires a <= b <= |img| && (b <= pos || pos + |bs| <= a)
    ensures Overwrite(img, pos, bs)[a..b] == img[a..b]
  {
  }

  /** A range of the file, or nothing when the file ends before it does. */
  function Range(img: Img, at: nat, n: nat): (r: Option<Img>)
    ensures r.Some? ==> |r.value| == n
  {
    if at + n <= |img| then Some(img[at..at + n]) else if n == 0 then Some([]) else None
  }

  /** A C string. */
  function UpToNul(b: Img): (r: Img)
    ensures |r| <= |b|
  {
    if b == [] || b[0] == 0 then [] else [b[0]] + UpToNul(b[1..])
  }

  // ---------------------------------------------------------------- numbers

  const WORD: nat := 0x1_0000_0000

  /** A number cut to 8 bits. */
  function Low(n: nat): byte {
    n % 256
  }

  function Le32(n: nat): (b: Img)
    ensures |b| == 4
  {
    [Low(n), Low(n / 256), Low(n / 256 / 256), Low(n / 256 / 256 / 256)]
  }

  function FromLe32(b: Img): (n: nat)
    requires |b| == 4
    ensures n < WORD
  {
    b[0] as int + 256 * (b[1] as int + 256 * (b[2] as int + 256 * b[3] as int))
  }

  lemma Le32RoundTrip(n: nat)
    ensures FromLe32(Le32(n)) == n % WORD
  {
    var a := n / 256;
    var b := a / 256;
    var c := b / 256;
    assert n == FromLe32(Le32(n)) + WORD * (c / 256);
  }

  /** The next multiple of 2048 above `n`: a whole block more when `n` is one already. */
  function PadUp(n: nat): (r: nat)
    ensures n < r <= n + 2048 && r % 2048 == 0
  {
    n - n % 2048 + 2048
  }

  // ---------------------------------------------------------------- open files

  class MemFile {
    var data: Img
    var pos: nat

    constructor (bytes: Img)
      ensures data == bytes && pos == 0
    {
      data, pos := bytes, 0;
    }

    method Seek(to: nat)
      modifies this
      ensures data == old(data) && pos == to
    {
      pos := to;
    }

    /** Reads at most `n` bytes: fewer at the end of the file. */
    method Read(n: nat) returns (bs: Img)
      modifies this
      ensures data == old(data)
      ensures old(pos) + n <= |data| ==> bs == data[old(pos)..old(pos) + n] && pos == old(pos) + n
      ensures old(pos) + n > |data| ==> |bs| < n || n == 0
      ensures n == 0 ==> bs == [] && pos == old(pos)
    {
      var end := if pos + n <= |data| then pos + n else if pos <= |data| then |data| else pos;
      bs := if pos < |data| then data[pos..end] else [];
      pos := end;
    }

    method Write(bs: Img)
      modifies this
      ensures data == Overwrite(old(data), old(pos), bs) && pos == old(pos) + |bs|
    {
      data := Overwrite(data, pos, bs);
      pos := pos + |bs|;
    }
  }

  /** A byte behind a write of something. */
  lemma ByteAfter(img: Img, pos: nat, bs: Img, i: nat)
    requires bs != [] && i < |Overwrite(img, pos, bs)|
    ensures Overwrite(img, pos, bs)[i] == if pos <= i < pos + |bs| then bs[i - pos] else if i < |img| then img[i] else 0
  {
  }

  lemma TwiceLength(img: Img, pos: nat, a: Img, b: Img)
    requires a != [] && b != []
    ensures |Overwrite(Overwrite(img, pos, a), pos + |a|, b)| == |Overwrite(img, pos, a + b)|
  {
    hide Overwrite;
    assert |a + b| == |a| + |b|;
  }

  lemma TwiceByte(img: Img, pos: nat, a: Img, b: Img, i: nat)
    requires a != [] && b != [] && i < |Overwrite(img, pos, a + b)|
    requires i < |Overwrite(Overwrite(img, pos, a), pos + |a|, b)|
    ensures Overwrite(Overwrite(img, pos, a), pos + |a|, b)[i] == Overwrite(img, pos, a + b)[i]
  {
    hide Overwrite;
    var half := Overwrite(img, pos, a);
    ByteAfter(img, pos, a + b, i);
    ByteAfter(half, pos + |a|, b, i);
    if i < |half| {
      ByteAfter(img, pos, a, i);
    }
  }

  /** Writes in two pieces are one write. */
  lemma OverwriteTwice(img: Img, pos: nat, a: Img, b: Img)
    ensures Overwrite(Overwrite(img, pos, a), pos + |a|, b) == Overwrite(img, pos, a + b)
  {
    if a == [] {
      assert a + b == b;
    } else if b == [] {
      assert a + b == a;
    } else {
      hide Overwrite;
      TwiceLength(img, pos, a, b);
      var one, two := Overwrite(Overwrite(img, pos, a), pos + |a|, b), Overwrite(img, pos, a + b);
      forall i | 0 <= i < |one|
        ensures one[i] == two[i]
      {
        TwiceByte(img, pos, a, b, i);
      }
    }
  }

  lemma Grown(s: Img, taken: Img, from: nat, n: nat)
    requires from + |taken| + n <= |s|
    requires taken == s[from..from + |taken|]
    ensures taken + s[from + |taken|..from + |taken| + n] == s[from..from + |taken| + n]
  {
  }

  /** One piece of a copy. */
  method CopyPiece(dst: MemFile, src: MemFile, n: nat, ghost was: Img, ghost to: nat, ghost from: nat, ghost taken: Img)
    returns (ok: bool, ghost taken': Img)
    requires dst != src && n > 0 && src.pos == from + |taken| && dst.pos == to + |taken|
    requires taken == [] || (from + |taken| <= |src.data| && taken == src.data[from..from + |taken|])
    requires dst.data == Overwrite(was, to, taken)
    modifies dst, src
    ensures src.data == old(src.data)
    ensures ok <==> from + |taken| + n <= |src.data|
    ensures ok ==>
      && |taken'| == |taken| + n && src.pos == from + |taken'| && dst.pos == to + |taken'|
      && taken' == src.data[from..from + |taken'|]
      && dst.data == Overwrite(was, to, taken')
  {
    var piece := src.Read(n);
    ok := |piece| == n;
    taken' := taken + piece;
    if ok {
      OverwriteTwice(was, to, taken, piece);
      if taken == [] {
        assert taken + piece == piece;
      } else {
        Grown(src.data, taken, from, n);
      }
      dst.Write(piece);
    }
  }

  /** Copies `size` bytes in pieces of 512, and says which piece the source was too short for. */
  method CopyFile(dst: MemFile, src: MemFile, size: nat) returns (rv: int)
    requires dst != src
    modifies dst, src
    ensures src.data == old(src.data)
    ensures rv == 0 <==> Range(src.data, old(src.pos), size).Some?
    ensures rv == 0 || rv == -1 || rv == -3
    ensures rv == 0 ==>
      && dst.pos == old(dst.pos) + size && src.pos == old(src.pos) + size
      && dst.data == Overwrite(old(dst.data), old(dst.pos), Range(src.data, old(src.pos), size).value)
  {
    var left := size;
    ghost var from, to, was := src.pos, dst.pos, dst.data;
    ghost var taken: Img := [];
    var ok;
    while left > 512
      invariant |taken| + left == size && src.data == old(src.data)
      invariant src.pos == from + |taken| && dst.pos == to + |taken|
      invariant taken == [] || (from + |taken| <= |src.data| && taken == src.data[from..from + |taken|])
      invariant dst.data == Overwrite(was, to, taken)
    {
      ok, taken := CopyPiece(dst, src, 512, was, to, from, taken);
      if !ok {
        return -1;
      }
      left := left - 512;
    }
    if left > 0 {
      ok, taken := CopyPiece(dst, src, left, was, to, from, taken);
      if !ok {
        return -3;
      }
    }
    return 0;
  }

  /** Pads up to the next block by writing its last byte. */
  method PadFile(f: MemFile)
    modifies f
    ensures f.pos == PadUp(old(f.pos))
    ensures f.data == Overwrite(old(f.data), PadUp(old(f.pos)) - 1, [0])
  {
    var to := PadUp(f.pos);
    f.Seek(to - 1);
    f.Write([0]);
  }
}
