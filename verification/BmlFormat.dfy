/**
 BML archives: what a scan finds in a byte image, the images that an update writes, and when the first
 gives back the second.

 The table says how long the parts of a file are, but not where they start.  A scan derives that by
 rounding up to multiples of 32; the writer pads with at least one byte.  The two agree as long as no
 part has a length that is a multiple of 32.
 */
module BmlFormat {
  import opened Bytes
  import opened Image
  import opened Records

  /** A file: its table entry, its data, and a second part that may be missing (empty). */
  datatype Member = Member(entry: Img, data: Img, pvm: Img)

  function CSize(e: Img): nat
    requires |e| == 64
  {
    FromLe32(e[32..36])
  }

  function PvmSize(e: Img): nat
    requires |e| == 64
  {
    FromLe32(e[44..48])
  }

  predicate ValidMember(m: Member) {
    |m.entry| == 64 && CSize(m.entry) == |m.data| && PvmSize(m.entry) == |m.pvm|
  }

  predicate ValidMembers(ms: seq<Member>) {
    forall i :: 0 <= i < |ms| ==> ValidMember(ms[i])
  }

  // ---------------------------------------------------------------- positions

  /** The writer's rounding: always some padding. */
  function Pad32(n: nat): (r: nat)
    ensures n < r <= n + 32 && r % 32 == 0
  {
    n - n % 32 + 32
  }

  /** The scan's rounding: none when there is nothing to round. */
  function Up32(n: nat): (r: nat)
    ensures n <= r < n + 32 && r % 32 == 0
  {
    if n % 32 == 0 then n else n - n % 32 + 32
  }

  /** The space for `n` entries and the header before them. */
  function HdrLen(n: nat): (h: nat)
    ensures 64 * n + 64 <= h < 64 * n + 64 + 2048 && h % 2048 == 0
  {
    var x := 64 * n + 64;
    if x % 2048 == 0 then x else x - x % 2048 + 2048
  }

  lemma HdrAligned(h: nat)
    requires h % 2048 == 0
    ensures h % 32 == 0
  {
    assert h == 32 * (64 * (h / 2048));
  }

  function AfterPvm(at: nat, m: Member): nat {
    if m.pvm == [] then at else Pad32(at + |m.pvm|)
  }

  /** Where the writer is after `ms`. */
  function W(h: nat, ms: seq<Member>): (w: nat)
    ensures w >= h
  {
    if ms == [] then h
    else
      var m := ms[|ms| - 1];
      AfterPvm(Pad32(W(h, ms[..|ms| - 1]) + |m.data|), m)
  }

  function ReadPvm(at: nat, pvm: nat): nat {
    if pvm == 0 then at else Up32(at + pvm)
  }

  /** Where a scan is after `ms`. */
  function R(h: nat, ms: seq<Member>): (r: nat)
    ensures r >= h
  {
    if ms == [] then h
    else
      var m := ms[|ms| - 1];
      ReadPvm(Up32(R(h, ms[..|ms| - 1]) + |m.data|), |m.pvm|)
  }

  function Whole(part: Img): nat {
    if |part| % 32 == 0 then 1 else 0
  }

  /** How many parts have a length that is a multiple of 32. */
  function Drift(ms: seq<Member>): nat {
    if ms == [] then 0
    else
      var m := ms[|ms| - 1];
      Drift(ms[..|ms| - 1]) + Whole(m.data) + if m.pvm == [] then 0 else Whole(m.pvm)
  }

  lemma RoundingDiffers(r: nat, d: nat, part: Img)
    requires r % 32 == 0
    ensures Pad32(r + 32 * d + |part|) == Up32(r + |part|) + 32 * (d + Whole(part))
  {
    var n := |part|;
    assert (r + 32 * d + n) % 32 == n % 32 && (r + n) % 32 == n % 32;
  }

  /** One more file, for all three. */
  lemma PositionsStep(h: nat, ms: seq<Member>)
    ensures ms == [] ==> W(h, ms) == R(h, ms) == h && Drift(ms) == 0
    ensures ms != [] ==>
      var before, m := ms[..|ms| - 1], ms[|ms| - 1];
      && W(h, ms) == AfterPvm(Pad32(W(h, before) + |m.data|), m)
      && R(h, ms) == ReadPvm(Up32(R(h, before) + |m.data|), |m.pvm|)
      && Drift(ms) == Drift(before) + Whole(m.data) + if m.pvm == [] then 0 else Whole(m.pvm)
  {
    hide Pad32, Up32, Whole, AfterPvm, ReadPvm;
  }

  /** Every such part puts the scan 32 bytes further behind the writer. */
  lemma {:induction false} ScanDrifts(h: nat, ms: seq<Member>)
    requires h % 32 == 0
    ensures W(h, ms) == R(h, ms) + 32 * Drift(ms) && R(h, ms) % 32 == 0
    decreases |ms|
  {
    hide Pad32, Up32, Whole, W, R, Drift;
    PositionsStep(h, ms);
    if ms != [] {
      var before, m := ms[..|ms| - 1], ms[|ms| - 1];
      ScanDrifts(h, before);
      RoundingDiffers(R(h, before), Drift(before), m.data);
      if m.pvm != [] {
        RoundingDiffers(Up32(R(h, before) + |m.data|), Drift(before) + Whole(m.data), m.pvm);
      }
    }
  }

  /** No part that has any bytes comes after one whose length is a multiple of 32. */
  ghost predicate Sound(ms: seq<Member>) {
    forall i :: 0 <= i < |ms| ==> SoundAt(ms, i)
  }

  predicate SoundAt(ms: seq<Member>, i: nat)
    requires i < |ms|
  {
    && (ms[i].data == [] || Drift(ms[..i]) == 0)
    && (ms[i].pvm == [] || Drift(ms[..i]) + Whole(ms[i].data) == 0)
  }

  // ---------------------------------------------------------------- reading

  const MAGIC: Img := [0x50, 0x01, 0, 0]

  function Entries(img: Img): Option<nat> {
    if |img| < 12 || img[..4] != [0, 0, 0, 0] || img[8..12] != MAGIC then None else Some(FromLe32(img[4..8]))
  }

  /** A scan with 32-bit positions: what it has found, and where the next file starts. */
  datatype Scanned = Scanned(ms: seq<Member>, off: nat)

  function Part(img: Img, at: nat, size: nat, code: int): Result<Img> {
    match Range(img, at, size)
    case None => Err(code)
    case Some(p) => Ok(p)
  }

  function Found(img: Img, e: Img, off: nat): Result<Member>
    requires |e| == 64
  {
    match Part(img, off, CSize(e), -5)
    case Err(code) => Err(code)
    case Ok(d) =>
      match Part(img, PvmAt(off, e), PvmSize(e), -8)
      case Err(code) => Err(code)
      case Ok(p) => Ok(Member(e, d, p))
  }

  function PvmAt(off: nat, e: Img): nat
    requires |e| == 64
  {
    Up32((off + CSize(e)) % WORD) % WORD
  }

  function NextAt(off: nat, e: Img): nat
    requires |e| == 64
  {
    if PvmSize(e) == 0 then PvmAt(off, e) else Up32((PvmAt(off, e) + PvmSize(e)) % WORD) % WORD
  }

  function ScanUpTo(img: Img, h: nat, n: nat): Result<Scanned> {
    if n == 0 then Ok(Scanned([], h))
    else
      match ScanUpTo(img, h, n - 1)
      case Err(code) => Err(code)
      case Ok(s) =>
        if |img| < 64 * n + 64 then Err(-2)
        else
          match Found(img, img[64 * n..64 * n + 64], s.off)
          case Err(code) => Err(code)
          case Ok(m) => Ok(Scanned(s.ms + [m], NextAt(s.off, img[64 * n..64 * n + 64])))
  }

  function Scan(img: Img): Result<seq<Member>> {
    match Entries(img)
    case None => Err(-1)
    case Some(n) =>
      match ScanUpTo(img, HdrLen(n) % WORD, n)
      case Err(code) => Err(code)
      case Ok(s) => Ok(s.ms)
  }

  // ---------------------------------------------------------------- writing

  function Header(n: nat): (h: Img)
    ensures |h| == 64
  {
    [0, 0, 0, 0] + Le32(n) + MAGIC + Zeros(52)
  }

  function PutPart(img: Img, at: nat, part: Img): Img {
    Overwrite(Overwrite(img, at, part), Pad32(at + |part|) - 1, [0])
  }

  function Put(img: Img, i: nat, w: nat, m: Member): Img {
    var one := PutPart(Overwrite(img, 64 * i + 64, m.entry), w, m.data);
    if m.pvm == [] then one else PutPart(one, Pad32(w + |m.data|), m.pvm)
  }

  function PutAll(img: Img, h: nat, ms: seq<Member>): Img {
    if ms == [] then img
    else
      var n := |ms| - 1;
      Put(PutAll(img, h, ms[..n]), n, W(h, ms[..n]), ms[n])
  }

  function Written(ms: seq<Member>): Img {
    PutAll(Header(|ms|), HdrLen(|ms|), ms)
  }

  // ---------------------------------------------------------------- the layout

  predicate Slot(img: Img, i: nat, w: nat, m: Member) {
    && Range(img, 64 * i + 64, |m.entry|) == Some(m.entry)
    && Range(img, w, |m.data|) == Some(m.data)
    && Range(img, Pad32(w + |m.data|), |m.pvm|) == Some(m.pvm)
  }

  ghost predicate LaidAt(img: Img, h: nat, ms: seq<Member>, i: nat)
    requires i < |ms|
  {
    Slot(img, i, W(h, ms[..i]), ms[i])
  }

  ghost predicate Laid(img: Img, h: nat, ms: seq<Member>) {
    && 64 * |ms| + 64 <= h && ValidMembers(ms)
    && forall i :: 0 <= i < |ms| ==> LaidAt(img, h, ms, i)
  }

  lemma PartKeeps(img: Img, at: nat, part: Img, a: nat, n: nat)
    requires Range(img, a, n).Some? && a + n <= at
    ensures Range(PutPart(img, at, part), a, n) == Range(img, a, n)
  {
    hide Overwrite, Range;
    RangeKept(img, at, part, a, n);
    RangeKept(Overwrite(img, at, part), Pad32(at + |part|) - 1, [0], a, n);
  }

  lemma PartMakes(img: Img, at: nat, part: Img)
    ensures Range(PutPart(img, at, part), at, |part|) == Some(part)
  {
    hide Overwrite, Range;
    RangeWritten(img, at, part);
    RangeKept(Overwrite(img, at, part), Pad32(at + |part|) - 1, [0], at, |part|);
  }

  /** What lies outside the entry and below the data stays. */
  lemma PutKeeps(img: Img, i: nat, w: nat, m: Member, a: nat, n: nat)
    requires Range(img, a, n).Some? && |m.entry| == 64 && a + n <= w
    requires a + n <= 64 * i + 64 || 64 * i + 128 <= a
    ensures Range(Put(img, i, w, m), a, n) == Range(img, a, n)
  {
    hide Overwrite, Range, PutPart;
    var img1 := Overwrite(img, 64 * i + 64, m.entry);
    RangeKept(img, 64 * i + 64, m.entry, a, n);
    PartKeeps(img1, w, m.data, a, n);
    PartKeeps(PutPart(img1, w, m.data), Pad32(w + |m.data|), m.pvm, a, n);
  }

  lemma PutMakes(img: Img, i: nat, w: nat, m: Member)
    requires |m.entry| == 64 && 64 * i + 128 <= w
    ensures Slot(Put(img, i, w, m), i, w, m)
  {
    hide Overwrite, PutPart;
    var img1 := Overwrite(img, 64 * i + 64, m.entry);
    var img2, w2 := PutPart(img1, w, m.data), Pad32(w + |m.data|);
    RangeWritten(img, 64 * i + 64, m.entry);
    PartKeeps(img1, w, m.data, 64 * i + 64, 64);
    PartMakes(img1, w, m.data);
    PartKeeps(img2, w2, m.pvm, 64 * i + 64, 64);
    PartKeeps(img2, w2, m.pvm, w, |m.data|);
    PartMakes(img2, w2, m.pvm);
  }

  lemma {:induction false} RegionsDisjoint(h: nat, ms: seq<Member>, i: nat)
    requires i < |ms|
    ensures AfterPvm(Pad32(W(h, ms[..i]) + |ms[i].data|), ms[i]) <= W(h, ms)
    decreases |ms|
  {
    hide Pad32, W, AfterPvm;
    var n := |ms| - 1;
    WriterMoves(h, ms);
    if i < n {
      RegionsDisjoint(h, ms[..n], i);
      assert ms[..n][..i] == ms[..i];
    }
  }

  lemma WriterMoves(h: nat, ms: seq<Member>)
    requires ms != []
    ensures var n := |ms| - 1;
      && W(h, ms) == AfterPvm(Pad32(W(h, ms[..n]) + |ms[n].data|), ms[n])
      && W(h, ms[..n]) <= W(h, ms)
  {
  }

  lemma SlotKept(img: Img, k: nat, w: nat, m: Member, i: nat, v: nat, g: Member)
    requires Slot(img, i, v, g) && i < k && |m.entry| == 64 && |g.entry| == 64 && 64 * k + 128 <= v
    requires AfterPvm(Pad32(v + |g.data|), g) <= w
    ensures Slot(Put(img, k, w, m), i, v, g)
  {
    hide Put, Range;
    var p := Pad32(v + |g.data|);
    PutKeeps(img, k, w, m, 64 * i + 64, 64);
    PutKeeps(img, k, w, m, v, |g.data|);
    PutKeeps(img, k, w, m, p, |g.pvm|);
  }

  lemma LaidPutAt(img: Img, h: nat, ms: seq<Member>, m: Member, i: nat)
    requires Laid(img, h, ms) && i <= |ms| && 64 * |ms| + 128 <= h && |m.entry| == 64
    ensures LaidAt(Put(img, |ms|, W(h, ms), m), h, ms + [m], i)
  {
    hide Put, Slot, AfterPvm, W;
    if i < |ms| {
      assert LaidAt(img, h, ms, i);
      RegionsDisjoint(h, ms, i);
      SlotKept(img, |ms|, W(h, ms), m, i, W(h, ms[..i]), ms[i]);
      assert (ms + [m])[..i] == ms[..i];
    } else {
      PutMakes(img, |ms|, W(h, ms), m);
      assert (ms + [m])[..i] == ms;
    }
  }

  lemma LaidPut(img: Img, h: nat, ms: seq<Member>, m: Member)
    requires Laid(img, h, ms) && 64 * |ms| + 128 <= h && ValidMember(m)
    ensures Laid(Put(img, |ms|, W(h, ms), m), h, ms + [m])
  {
    hide Put, LaidAt;
    var r, all := Put(img, |ms|, W(h, ms), m), ms + [m];
    forall i | 0 <= i < |all|
      ensures LaidAt(r, h, all, i)
    {
      LaidPutAt(img, h, ms, m, i);
    }
  }

  lemma {:induction false} LaidPutAll(img: Img, h: nat, ms: seq<Member>)
    requires 64 * |ms| + 64 <= h && ValidMembers(ms)
    ensures Laid(PutAll(img, h, ms), h, ms)
    decreases |ms|
  {
    hide Put, LaidAt;
    if ms != [] {
      var n := |ms| - 1;
      LaidPutAll(img, h, ms[..n]);
      LaidPut(PutAll(img, h, ms[..n]), h, ms[..n], ms[n]);
      assert ms == ms[..n] + [ms[n]];
    }
  }

  lemma {:induction false} HeaderKept(img: Img, h: nat, ms: seq<Member>)
    requires Range(img, 0, 64).Some? && ValidMembers(ms) && h >= 64
    ensures Range(PutAll(img, h, ms), 0, 64) == Range(img, 0, 64)
    decreases |ms|
  {
    hide Put, Range;
    if ms != [] {
      var n := |ms| - 1;
      HeaderKept(img, h, ms[..n]);
      PutKeeps(PutAll(img, h, ms[..n]), n, W(h, ms[..n]), ms[n], 0, 64);
    }
  }

  // ---------------------------------------------------------------- reading back

  lemma {:induction false} RBelowW(h: nat, ms: seq<Member>, k: nat)
    requires k <= |ms| && h % 32 == 0
    ensures R(h, ms[..k]) <= W(h, ms[..k]) <= W(h, ms)
    decreases |ms| - k
  {
    ScanDrifts(h, ms[..k]);
    if k < |ms| {
      RBelowW(h, ms, k + 1);
      assert ms[..k + 1][..k] == ms[..k];
    } else {
      assert ms[..k] == ms;
    }
  }

  lemma ROne(h: nat, ms: seq<Member>, k: nat)
    requires k < |ms|
    ensures R(h, ms[..k + 1]) == ReadPvm(Up32(R(h, ms[..k]) + |ms[k].data|), |ms[k].pvm|)
  {
    assert ms[..k + 1][..k] == ms[..k];
  }

  lemma NoWrap(n: nat)
    requires n < WORD
    ensures n % WORD == n
  {
  }

  /** The positions of a file, without wrapping around. */
  lemma ScanPositions(h: nat, ms: seq<Member>, k: nat)
    requires k < |ms| && h % 32 == 0 && ValidMember(ms[k]) && W(h, ms) < WORD
    ensures var r := R(h, ms[..k]);
      && PvmAt(r, ms[k].entry) == Up32(r + |ms[k].data|)
      && NextAt(r, ms[k].entry) == R(h, ms[..k + 1])
  {
    hide CSize, PvmSize, W, R, Up32;
    RBelowW(h, ms, k + 1);
    ROne(h, ms, k);
    var r, m := R(h, ms[..k]), ms[k];
    NoWrap(r + |m.data|);
    NoWrap(Up32(r + |m.data|));
    if m.pvm != [] {
      NoWrap(Up32(r + |m.data|) + |m.pvm|);
      NoWrap(R(h, ms[..k + 1]));
    }
  }

  /** Where the writer has put the parts of a file, as the scan sees it. */
  lemma WriterPositions(h: nat, ms: seq<Member>, k: nat)
    requires k < |ms| && h % 32 == 0
    ensures var r, d := R(h, ms[..k]), Drift(ms[..k]);
      && W(h, ms[..k]) == r + 32 * d
      && Pad32(W(h, ms[..k]) + |ms[k].data|) == Up32(r + |ms[k].data|) + 32 * (d + Whole(ms[k].data))
  {
    hide W, R, Drift, Pad32, Up32, Whole;
    ScanDrifts(h, ms[..k]);
    RoundingDiffers(R(h, ms[..k]), Drift(ms[..k]), ms[k].data);
  }

  lemma FindsMember(img: Img, h: nat, ms: seq<Member>, k: nat)
    requires Laid(img, h, ms) && k < |ms| && SoundAt(ms, k) && h % 32 == 0 && W(h, ms) < WORD
    ensures |img| >= 64 * k + 128 && img[64 * k + 64..64 * k + 128] == ms[k].entry
    ensures Found(img, ms[k].entry, R(h, ms[..k])) == Ok(ms[k])
  {
    hide CSize, PvmSize, Pad32, Up32, W, R, Drift, Whole;
    assert LaidAt(img, h, ms, k) && ValidMember(ms[k]);
    ScanPositions(h, ms, k);
    WriterPositions(h, ms, k);
  }

  lemma {:induction false} ScansUpTo(img: Img, h: nat, ms: seq<Member>, k: nat)
    requires Laid(img, h, ms) && Sound(ms) && k <= |ms| && h % 32 == 0 && W(h, ms) < WORD
    ensures ScanUpTo(img, h, k) == Ok(Scanned(ms[..k], R(h, ms[..k])))
  {
    hide Laid, Found, SoundAt, Sound, NextAt, W, R;
    if k > 0 {
      ScansUpTo(img, h, ms, k - 1);
      assert SoundAt(ms, k - 1) by {
        SoundEach(ms, k - 1);
      }
      FindsMember(img, h, ms, k - 1);
      assert ValidMember(ms[k - 1]) by {
        LaidValid(img, h, ms);
      }
      ScanPositions(h, ms, k - 1);
      assert ms[..k] == ms[..k - 1] + [ms[k - 1]];
    } else {
      assert ms[..0] == [];
      assert R(h, []) == h by {
        RNone(h);
      }
    }
  }

  lemma RNone(h: nat)
    ensures R(h, []) == h
  {
  }

  lemma SoundEach(ms: seq<Member>, i: nat)
    requires Sound(ms) && i < |ms|
    ensures SoundAt(ms, i)
  {
  }

  lemma LaidValid(img: Img, h: nat, ms: seq<Member>)
    requires Laid(img, h, ms)
    ensures ValidMembers(ms)
  {
  }

  lemma HeaderReads(img: Img, n: nat)
    requires Range(img, 0, 64) == Some(Header(n)) && n < WORD
    ensures Entries(img) == Some(n)
  {
    hide Le32, FromLe32;
    var h := img[0..64];
    assert img[..4] == h[..4] && img[4..8] == h[4..8] == Le32(n) && img[8..12] == h[8..12];
    Le32RoundTrip(n);
  }

  /** In 32 bits, and so is everything that a scan computes. */
  predicate Fits(ms: seq<Member>) {
    |ms| < WORD && W(HdrLen(|ms|), ms) < WORD
  }

  lemma HdrFits(ms: seq<Member>)
    requires Fits(ms)
    ensures |ms| < WORD && HdrLen(|ms|) % WORD == HdrLen(|ms|) && W(HdrLen(|ms|), ms) < WORD
  {
    hide HdrLen, W;
    SmallMod(HdrLen(|ms|));
  }

  lemma SmallMod(n: nat)
    requires n < WORD
    ensures n % WORD == n
  {
  }

  lemma WrittenScans(ms: seq<Member>)
    requires ValidMembers(ms) && Sound(ms) && Fits(ms)
    ensures Scan(Written(ms)) == Ok(ms)
  {
    var n, h := |ms|, HdrLen(|ms|);
    HdrAligned(h);
    HdrFits(ms);
    hide PutAll, Laid, Header, Sound, Entries, ScanUpTo, ValidMembers, HdrLen, W, Fits, Range;
    LaidPutAll(Header(n), h, ms);
    assert Header(n)[0..64] == Header(n);
    HeaderKept(Header(n), h, ms);
    HeaderReads(Written(ms), n);
    ScansUpTo(Written(ms), h, ms, n);
    assert ms[..n] == ms;
  }

  // ---------------------------------------------------------------- only sound shapes come back

  predicate ScansBack(ms: seq<Member>) {
    Scan(Written(ms)) == Ok(ms)
  }

  /** The same table, and so the same lengths. */
  predicate SameTable(a: seq<Member>, b: seq<Member>) {
    |a| == |b| && forall i :: 0 <= i < |a| ==> a[i].entry == b[i].entry
  }

  lemma {:induction false} SamePositions(h: nat, a: seq<Member>, b: seq<Member>)
    requires ValidMembers(a) && ValidMembers(b) && SameTable(a, b)
    ensures W(h, a) == W(h, b) && Drift(a) == Drift(b)
    decreases |a|
  {
    hide Pad32, CSize, PvmSize;
    if a != [] {
      var n := |a| - 1;
      SamePositions(h, a[..n], b[..n]);
      assert ValidMember(a[n]) && ValidMember(b[n]);
    }
  }

  lemma SameSound(a: seq<Member>, b: seq<Member>)
    requires ValidMembers(a) && ValidMembers(b) && SameTable(a, b) && Sound(a)
    ensures Sound(b)
  {
    hide CSize, PvmSize, Drift;
    forall i | 0 <= i < |b|
      ensures SoundAt(b, i)
    {
      assert SoundAt(a, i) && ValidMember(a[i]) && ValidMember(b[i]);
      SamePositions(0, a[..i], b[..i]);
    }
  }

  predicate AllZero(b: Img) {
    forall i :: 0 <= i < |b| ==> b[i] == 0
  }

  function One(n: nat): (b: Img)
    ensures |b| == n
  {
    if n == 0 then [] else [1] + Zeros(n - 1)
  }

  /** The same table with zeros for contents, except for a one at the start of one part. */
  function Marked(ms: seq<Member>, k: nat, inData: bool): (b: seq<Member>)
    ensures |b| == |ms|
  {
    seq(|ms|, i requires 0 <= i < |ms| =>
      Member(ms[i].entry,
             if i == k && inData then One(|ms[i].data|) else Zeros(|ms[i].data|),
             if i == k && !inData then One(|ms[i].pvm|) else Zeros(|ms[i].pvm|)))
  }

  lemma MarkedIsLike(ms: seq<Member>, k: nat, inData: bool)
    requires ValidMembers(ms)
    ensures ValidMembers(Marked(ms, k, inData)) && SameTable(ms, Marked(ms, k, inData))
  {
    hide CSize, PvmSize;
    forall i | 0 <= i < |ms|
      ensures ValidMember(Marked(ms, k, inData)[i])
    {
      assert ValidMember(ms[i]);
    }
  }

  ghost predicate Zeroed(img: Img, h: nat, limit: nat) {
    forall p :: h <= p < limit && p < |img| ==> img[p] == 0
  }

  lemma PartZeroed(img: Img, at: nat, part: Img, h: nat, limit: nat)
    requires Zeroed(img, h, limit) && (AllZero(part) || limit <= at)
    ensures Zeroed(PutPart(img, at, part), h, limit)
  {
    hide Pad32;
  }

  lemma PutZeroed(img: Img, i: nat, w: nat, m: Member, h: nat, limit: nat)
    requires Zeroed(img, h, limit) && |m.entry| == 64 && 64 * i + 128 <= h
    requires AllZero(m.data) || limit <= w
    requires AllZero(m.pvm) || limit <= Pad32(w + |m.data|)
    ensures Zeroed(Put(img, i, w, m), h, limit)
  {
    hide PutPart, Pad32;
    var img1 := Overwrite(img, 64 * i + 64, m.entry);
    assert Zeroed(img1, h, limit);
    hide Overwrite, Zeroed, AllZero;
    PartZeroed(img1, w, m.data, h, limit);
    if m.pvm != [] {
      PartZeroed(PutPart(img1, w, m.data), Pad32(w + |m.data|), m.pvm, h, limit);
    }
  }

  /** Where the marked part starts. */
  function MarkAt(h: nat, ms: seq<Member>, k: nat, inData: bool): nat
    requires k < |ms|
  {
    if inData then W(h, ms[..k]) else Pad32(W(h, ms[..k]) + |ms[k].data|)
  }

  /** All parts below the mark are zero. */
  lemma MarkedParts(h: nat, ms: seq<Member>, k: nat, inData: bool, i: nat)
    requires i < |ms| && k < |ms|
    ensures var b := Marked(ms, k, inData);
      && (AllZero(b[i].data) || MarkAt(h, b, k, inData) <= W(h, b[..i]))
      && (AllZero(b[i].pvm) || MarkAt(h, b, k, inData) <= Pad32(W(h, b[..i]) + |b[i].data|))
  {
    hide Pad32, W;
  }

  lemma {:induction false} MarkedZeroed(img: Img, h: nat, b: seq<Member>, limit: nat, n: nat)
    requires n <= |b| && ValidMembers(b) && 64 * |b| + 64 <= h && |img| <= h
    requires forall i :: 0 <= i < |b| ==> ZerosBelow(h, b, limit, i)
    ensures Zeroed(PutAll(img, h, b[..n]), h, limit)
    decreases n
  {
    hide Put, Pad32, W, Zeroed, AllZero;
    if n == 0 {
      assert PutAll(img, h, b[..0]) == img;
      NothingAbove(img, h, limit);
    } else {
      MarkedZeroed(img, h, b, limit, n - 1);
      assert ValidMember(b[n - 1]) && ZerosBelow(h, b, limit, n - 1);
      assert b[..n][..n - 1] == b[..n - 1];
      PutZeroed(PutAll(img, h, b[..n - 1]), n - 1, W(h, b[..n - 1]), b[n - 1], h, limit);
    }
  }

  predicate ZerosBelow(h: nat, b: seq<Member>, limit: nat, i: nat)
    requires i < |b|
  {
    && (AllZero(b[i].data) || limit <= W(h, b[..i]))
    && (AllZero(b[i].pvm) || limit <= Pad32(W(h, b[..i]) + |b[i].data|))
  }

  lemma NothingAbove(img: Img, h: nat, limit: nat)
    requires |img| <= h
    ensures Zeroed(img, h, limit)
  {
  }

  lemma {:induction false} ScanPrefix(img: Img, h: nat, n: nat, k: nat)
    requires k <= n && ScanUpTo(img, h, n).Ok?
    ensures ScanUpTo(img, h, k).Ok? && |ScanUpTo(img, h, n).value.ms| == n
    ensures ScanUpTo(img, h, k).value.ms == ScanUpTo(img, h, n).value.ms[..k]
    decreases n
  {
    hide Found, NextAt;
    if n > 0 {
      if k < n {
        ScanPrefix(img, h, n - 1, k);
      } else {
        ScanPrefix(img, h, n - 1, n - 1);
      }
    }
  }

  lemma ScanNothing(img: Img, h: nat)
    ensures ScanUpTo(img, h, 0) == Ok(Scanned([], h))
  {
  }

  /** One more file: it was found at the position that the scan had come to. */
  lemma NextLooked(img: Img, h: nat, b: seq<Member>, k: nat)
    requires k < |b| && ScanUpTo(img, h, k).Ok? && ScanUpTo(img, h, k).value.ms == b[..k]
    requires ScanUpTo(img, h, k + 1).Ok? && ScanUpTo(img, h, k + 1).value.ms == b[..k + 1]
    ensures var r := ScanUpTo(img, h, k).value.off;
      && Found(img, b[k].entry, r) == Ok(b[k])
      && ScanUpTo(img, h, k + 1).value.off == NextAt(r, b[k].entry)
  {
    hide NextAt, Part;
    assert b[..k + 1][k] == b[k];
  }

  /** A scan that finds `b` has looked for each file where `R` says. */
  lemma {:induction false} ScanLooksAt(img: Img, h: nat, b: seq<Member>, k: nat)
    requires ScanUpTo(img, h, |b|).Ok? && ScanUpTo(img, h, |b|).value.ms == b
    requires ValidMembers(b) && h % 32 == 0 && W(h, b) < WORD && k <= |b|
    ensures ScanUpTo(img, h, k) == Ok(Scanned(b[..k], R(h, b[..k])))
    ensures k < |b| ==> Found(img, b[k].entry, R(h, b[..k])) == Ok(b[k])
    decreases k
  {
    hide ScanUpTo, NextAt, W, R, Found, ValidMember;
    ScanPrefix(img, h, |b|, k);
    if k == 0 {
      RNone(h);
      ScanNothing(img, h);
      assert b[..0] == [];
    } else {
      ScanLooksAt(img, h, b, k - 1);
      NextLooked(img, h, b, k - 1);
      assert ValidMember(b[k - 1]);
      ScanPositions(h, b, k - 1);
    }
    if k < |b| {
      ScanPrefix(img, h, |b|, k + 1);
      NextLooked(img, h, b, k);
    }
  }

  lemma NotThere(img: Img, at: nat, part: Img)
    requires part != [] && part[0] == 1 && (at < |img| ==> img[at] == 0)
    ensures Range(img, at, |part|) != Some(part)
  {
    if at + |part| <= |img| {
      assert img[at..at + |part|][0] == 0;
    }
  }

  lemma DataNotFound(img: Img, h: nat, b: seq<Member>, k: nat)
    requires k < |b| && ValidMember(b[k]) && Zeroed(img, h, W(h, b[..k])) && h % 32 == 0
    requires b[k].data != [] && b[k].data[0] == 1 && Drift(b[..k]) > 0
    ensures Found(img, b[k].entry, R(h, b[..k])) != Ok(b[k])
  {
    hide W, R, Up32, Pad32, Drift, Whole, CSize, PvmSize, PvmAt, Range;
    WriterPositions(h, b, k);
    NotThere(img, R(h, b[..k]), b[k].data);
  }

  lemma BelowTheWriter(h: nat, b: seq<Member>, k: nat)
    requires k < |b| && h % 32 == 0 && Drift(b[..k]) + Whole(b[k].data) > 0
    ensures h <= Up32(R(h, b[..k]) + |b[k].data|) < Pad32(W(h, b[..k]) + |b[k].data|)
  {
    hide W, R, Drift, Whole, Pad32;
    WriterPositions(h, b, k);
    var d: nat := Drift(b[..k]) + Whole(b[k].data);
    assert 32 * d > 0;
  }

  lemma ZeroAt(img: Img, h: nat, limit: nat, at: nat)
    requires Zeroed(img, h, limit) && h <= at < limit
    ensures at < |img| ==> img[at] == 0
  {
  }

  lemma PvmNotFound(img: Img, h: nat, b: seq<Member>, k: nat)
    requires k < |b| && ValidMember(b[k]) && Zeroed(img, h, Pad32(W(h, b[..k]) + |b[k].data|))
    requires h % 32 == 0 && W(h, b) < WORD
    requires b[k].pvm != [] && b[k].pvm[0] == 1 && Drift(b[..k]) + Whole(b[k].data) > 0
    ensures Found(img, b[k].entry, R(h, b[..k])) != Ok(b[k])
  {
    hide *;
    BelowTheWriter(h, b, k);
    PvmZero(img, h, Pad32(W(h, b[..k]) + |b[k].data|), Up32(R(h, b[..k]) + |b[k].data|), b[k].pvm);
    PvmPosition(h, b, k);
    PvmPartDiffers(img, b[k].entry, R(h, b[..k]), b[k]);
  }

  lemma PvmPosition(h: nat, b: seq<Member>, k: nat)
    requires k < |b| && ValidMember(b[k]) && h % 32 == 0 && W(h, b) < WORD
    ensures |b[k].entry| == 64 && PvmSize(b[k].entry) == |b[k].pvm|
    ensures PvmAt(R(h, b[..k]), b[k].entry) == Up32(R(h, b[..k]) + |b[k].data|)
  {
    hide W, R, Up32, CSize, PvmSize, PvmAt, NextAt;
    ScanPositions(h, b, k);
  }

  lemma PvmZero(img: Img, h: nat, limit: nat, at: nat, part: Img)
    requires Zeroed(img, h, limit) && h <= at < limit && part != [] && part[0] == 1
    ensures Range(img, at, |part|) != Some(part)
  {
    hide Range, Zeroed;
    ZeroAt(img, h, limit, at);
    NotThere(img, at, part);
  }

  lemma PvmPartDiffers(img: Img, e: Img, off: nat, m: Member)
    requires |e| == 64 && PvmSize(e) == |m.pvm| && Range(img, PvmAt(off, e), |m.pvm|) != Some(m.pvm)
    ensures Found(img, e, off) != Ok(m)
  {
    hide Range, CSize, PvmSize, PvmAt;
  }

  /** A scan that looks for the marked part below it finds zeros. */
  lemma MarkNotFound(img: Img, h: nat, b: seq<Member>, k: nat, inData: bool)
    requires k < |b| && ValidMember(b[k]) && Zeroed(img, h, MarkAt(h, b, k, inData))
    requires h % 32 == 0 && W(h, b) < WORD
    requires if inData then b[k].data == One(|b[k].data|) != [] && Drift(b[..k]) > 0
             else b[k].pvm == One(|b[k].pvm|) != [] && Drift(b[..k]) + Whole(b[k].data) > 0
    ensures Found(img, b[k].entry, R(h, b[..k])) != Ok(b[k])
  {
    hide W, R, Pad32, Drift, Whole, Zeroed, Found;
    if inData {
      DataNotFound(img, h, b, k);
    } else {
      PvmNotFound(img, h, b, k);
    }
  }

  lemma MarkedIsLost(ms: seq<Member>, k: nat, inData: bool)
    requires ValidMembers(ms) && Fits(ms) && k < |ms|
    requires if inData then ms[k].data != [] && Drift(ms[..k]) > 0
             else ms[k].pvm != [] && Drift(ms[..k]) + Whole(ms[k].data) > 0
    ensures !ScansBack(Marked(ms, k, inData))
  {
    hide W, PutAll, Drift, CSize, PvmSize, Header, ScanUpTo, HdrLen, ValidMembers, SameTable, Zeroed, Found, ScansBack, ZerosBelow, MarkAt;
    var b, n, h := Marked(ms, k, inData), |ms|, HdrLen(|ms|);
    MarkedIsLike(ms, k, inData);
    SamePositions(h, ms, b);
    PrefixLike(ms, b, k);
    SamePositions(h, ms[..k], b[..k]);
    HdrAligned(h);
    forall i | 0 <= i < |b|
      ensures ZerosBelow(h, b, MarkAt(h, b, k, inData), i)
    {
      MarkedZeros(h, ms, k, inData, i);
    }
    MarkedZeroed(Header(n), h, b, MarkAt(h, b, k, inData), n);
    assert b[..n] == b;
    OneValid(b, k);
    MarkNotFound(Written(b), h, b, k, inData);
    if ScansBack(b) {
      HeaderOf(b);
      ScanLooksAt(Written(b), h, b, k);
    }
  }

  lemma MarkedZeros(h: nat, ms: seq<Member>, k: nat, inData: bool, i: nat)
    requires i < |ms| && k < |ms|
    ensures ZerosBelow(h, Marked(ms, k, inData), MarkAt(h, Marked(ms, k, inData), k, inData), i)
  {
    hide W, Pad32, AllZero, Marked;
    MarkedParts(h, ms, k, inData, i);
  }

  lemma OneValid(b: seq<Member>, k: nat)
    requires ValidMembers(b) && k < |b|
    ensures ValidMember(b[k])
  {
  }

  lemma PrefixLike(a: seq<Member>, b: seq<Member>, k: nat)
    requires ValidMembers(a) && ValidMembers(b) && SameTable(a, b) && k <= |a|
    ensures ValidMembers(a[..k]) && ValidMembers(b[..k]) && SameTable(a[..k], b[..k])
  {
  }

  lemma HeaderOf(b: seq<Member>)
    requires ValidMembers(b) && Fits(b) && ScansBack(b)
    ensures ScanUpTo(Written(b), HdrLen(|b|), |b|).Ok? && ScanUpTo(Written(b), HdrLen(|b|), |b|).value.ms == b
  {
    hide PutAll, Header, Entries, ScanUpTo, HdrLen, ValidMembers, W;
    var n := |b|;
    assert Header(n)[0..64] == Header(n);
    HeaderKept(Header(n), HdrLen(n), b);
    HeaderReads(Written(b), n);
    NoWrap(HdrLen(n));
  }

  /** With a given table, all contents come back exactly when the lengths are sound. */
  lemma TableNeedsSound(ms: seq<Member>)
    requires ValidMembers(ms) && Fits(ms)
    ensures (forall b: seq<Member> :: ValidMembers(b) && SameTable(ms, b) ==> ScansBack(b)) <==> Sound(ms)
  {
    hide ScansBack, ValidMembers, Drift, W, HdrLen;
    if Sound(ms) {
      forall b: seq<Member> | ValidMembers(b) && SameTable(ms, b)
        ensures ScansBack(b)
      {
        SameSound(ms, b);
        SamePositions(HdrLen(|ms|), ms, b);
        assert ScansBack(b) by {
          SoundScansBack(b);
        }
      }
    } else {
      var i :| 0 <= i < |ms| && !SoundAt(ms, i);
      var inData := ms[i].data != [] && Drift(ms[..i]) > 0;
      MarkedIsLike(ms, i, inData);
      MarkedIsLost(ms, i, inData);
    }
  }

  lemma SoundScansBack(b: seq<Member>)
    requires ValidMembers(b) && Sound(b) && Fits(b)
    ensures ScansBack(b)
  {
    hide Scan, Written, Sound, Fits;
    WrittenScans(b);
  }
}
