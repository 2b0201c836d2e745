/**
 AFS archives: what a scan finds in a byte image, and the images that the tool writes.

 An archive is a magic number and a count, a table of offsets and sizes, and from 0x80000 on the data
 of the files, each in blocks of 2048 bytes.
 */
module AfsFormat {
  import opened Bytes
  import opened Image
  import opened Records

  const DATA: nat := 0x80000
  const MAX_FILES: nat := 65535

  // ---------------------------------------------------------------- reading

  const MAGIC: Img := [0x41, 0x46, 0x53, 0x00]

  /** The count in the header, when the image looks like an archive. */
  function Entries(img: Img): Option<nat> {
    if |img| < 8 || img[..4] != MAGIC then None else Some(FromLe32(img[4..8]))
  }

  /** The file that table entry `i` points to. */
  function File(img: Img, i: nat): Result<Img> {
    if |img| < 12 + 8 * i then Err(-2)
    else if |img| < 16 + 8 * i then Err(-3)
    else
      match Range(img, FromLe32(img[8 + 8 * i..12 + 8 * i]), FromLe32(img[12 + 8 * i..16 + 8 * i]))
      case None => Err(-5)
      case Some(f) => Ok(f)
  }

  function FilesUpTo(img: Img, n: nat): Result<seq<Img>> {
    if n == 0 then Ok([])
    else
      match FilesUpTo(img, n - 1)
      case Err(code) => Err(code)
      case Ok(fs) =>
        match File(img, n - 1)
        case Err(code) => Err(code)
        case Ok(f) => Ok(fs + [f])
  }

  /** All files, or the code of the first failure.  The count is returned as a signed number, so a
      count from 2^31 on reads as a failure too. */
  function Scan(img: Img): Result<seq<Img>> {
    match Entries(img)
    case None => Err(-1)
    case Some(n) =>
      match FilesUpTo(img, n)
      case Err(code) => Err(code)
      case Ok(fs) => if n >= 0x8000_0000 then Err(n - WORD) else Ok(fs)
  }

  lemma {:induction false} FilesFound(img: Img, n: nat)
    ensures FilesUpTo(img, n).Ok? <==> forall i :: 0 <= i < n ==> File(img, i).Ok?
    ensures FilesUpTo(img, n).Ok? ==>
      && |FilesUpTo(img, n).value| == n
      && forall i :: 0 <= i < n ==> File(img, i) == Ok(FilesUpTo(img, n).value[i])
    decreases n
  {
    hide File;
    if n > 0 {
      FilesFound(img, n - 1);
    }
  }

  /** A scan finds `files` exactly when the header counts them and every table entry leads to its file. */
  lemma ScanFinds(img: Img, files: seq<Img>)
    ensures Scan(img) == Ok(files) <==>
      && Entries(img) == Some(|files|) && |files| < 0x8000_0000
      && forall i :: 0 <= i < |files| ==> File(img, i) == Ok(files[i])
  {
    hide File;
    match Entries(img)
    case None =>
    case Some(n) =>
      FilesFound(img, n);
      if n == |files| && forall i :: 0 <= i < |files| ==> File(img, i) == Ok(files[i]) {
        assert forall i :: 0 <= i < n ==> FilesUpTo(img, n).value[i] == files[i];
        assert FilesUpTo(img, n).value == files;
      }
  }

  // ---------------------------------------------------------------- writing

  function Header(n: nat): (h: Img)
    ensures |h| == 8
  {
    MAGIC + Le32(n)
  }

  function Entry(off: nat, size: nat): (e: Img)
    ensures |e| == 8
  {
    Le32(off) + Le32(size)
  }

  /** One file: its table entry at `fpos`, its data at `wpos`, and the padding. */
  function Put(img: Img, fpos: nat, wpos: nat, f: Img): Img {
    PutRecord(img, fpos, Entry(wpos, |f|), wpos, f)
  }

  /** Where the data ends that starts at `wpos`. */
  function End(wpos: nat, files: seq<Img>): (e: nat)
    ensures e >= wpos
  {
    if files == [] then wpos
    else
      var n := |files| - 1;
      PadUp(End(wpos, files[..n]) + |files[n]|)
  }

  function PutAll(img: Img, fpos: nat, wpos: nat, files: seq<Img>): Img {
    if files == [] then img
    else
      var n := |files| - 1;
      Put(PutAll(img, fpos, wpos, files[..n]), fpos + 8 * n, End(wpos, files[..n]), files[n])
  }

  function Created(files: seq<Img>): Img {
    PutAll(Header(|files|), 8, DATA, files)
  }

  /** The header comes last when an archive is rewritten. */
  function Rewritten(files: seq<Img>): Img {
    Overwrite(PutAll([], 8, DATA, files), 0, Header(|files|))
  }

  /** An empty archive has moved no data, so the new files start where the table does. */
  function Added(was: seq<Img>, more: seq<Img>): Img {
    var copied := Overwrite(PutAll([], 8, DATA, was), 0, Header(|was| + |more|));
    PutAll(copied, 8 + 8 * |was|, if was == [] then 8 else End(DATA, was), more)
  }

  /** Everything can be said in the table's 32-bit fields. */
  ghost predicate Fits(files: seq<Img>) {
    forall i :: 0 <= i < |files| ==> FitsAt(files, i)
  }

  ghost predicate FitsAt(files: seq<Img>, i: nat)
    requires i < |files|
  {
    |files[i]| < WORD && End(DATA, files[..i]) < WORD
  }

  // ---------------------------------------------------------------- the layout that all writers keep

  /** A table entry and the data that it points to. */
  predicate Slot(img: Img, at: nat, off: nat, f: Img) {
    Range(img, at, 8) == Some(Entry(off, |f|)) && Range(img, off, |f|) == Some(f)
  }

  ghost predicate Laid(img: Img, files: seq<Img>) {
    && |files| <= MAX_FILES
    && |img| <= End(DATA, files)
    && forall i :: 0 <= i < |files| ==> LaidAt(img, files, i)
  }

  ghost predicate LaidAt(img: Img, files: seq<Img>, i: nat)
    requires i < |files|
  {
    Slot(img, 8 + 8 * i, End(DATA, files[..i]), files[i])
  }

  /** The whole table lies below the data, and no longer one would. */
  lemma TableBelowData(n: nat)
    ensures 8 + 8 * n <= DATA <==> n <= MAX_FILES
  {
  }

  lemma SlotKept(img: Img, fpos: nat, wpos: nat, f: Img, at: nat, off: nat, g: Img)
    requires Slot(img, at, off, g) && at + 8 <= fpos && fpos + 8 <= off && off + |g| <= wpos
    ensures Slot(Put(img, fpos, wpos, f), at, off, g)
  {
    PutKeeps(img, fpos, Entry(wpos, |f|), wpos, f, at, 8);
    PutKeeps(img, fpos, Entry(wpos, |f|), wpos, f, off, |g|);
  }

  lemma SlotMade(img: Img, fpos: nat, wpos: nat, f: Img)
    requires fpos + 8 <= wpos
    ensures Slot(Put(img, fpos, wpos, f), fpos, wpos, f)
  {
    PutMakes(img, fpos, Entry(wpos, |f|), wpos, f);
  }

  /** The data regions do not overlap. */
  lemma {:induction false} RegionsDisjoint(wpos: nat, files: seq<Img>, i: nat)
    requires i < |files|
    ensures End(wpos, files[..i]) + |files[i]| < End(wpos, files)
    decreases |files|
  {
    var n := |files| - 1;
    if i < n {
      RegionsDisjoint(wpos, files[..n], i);
      assert files[..n][..i] == files[..i];
    }
  }

  lemma LaidPutBelow(img: Img, files: seq<Img>, f: Img, i: nat)
    requires Laid(img, files) && i < |files| < MAX_FILES
    ensures LaidAt(Put(img, 8 + 8 * |files|, End(DATA, files), f), files + [f], i)
  {
    assert LaidAt(img, files, i);
    RegionsDisjoint(DATA, files, i);
    SlotKept(img, 8 + 8 * |files|, End(DATA, files), f, 8 + 8 * i, End(DATA, files[..i]), files[i]);
    assert (files + [f])[..i] == files[..i];
  }

  lemma LaidPutThere(img: Img, files: seq<Img>, f: Img)
    requires |files| < MAX_FILES
    ensures LaidAt(Put(img, 8 + 8 * |files|, End(DATA, files), f), files + [f], |files|)
  {
    SlotMade(img, 8 + 8 * |files|, End(DATA, files), f);
    assert (files + [f])[..|files|] == files;
  }

  lemma EndOne(wpos: nat, files: seq<Img>, f: Img)
    ensures End(wpos, files + [f]) == PadUp(End(wpos, files) + |f|)
  {
    assert (files + [f])[..|files|] == files;
  }

  lemma LaidPutLength(img: Img, files: seq<Img>, f: Img)
    requires Laid(img, files)
    ensures |Put(img, 8 + 8 * |files|, End(DATA, files), f)| <= End(DATA, files + [f])
  {
    EndOne(DATA, files, f);
    PutLength(img, 8 + 8 * |files|, Entry(End(DATA, files), |f|), End(DATA, files), f);
  }

  lemma LaidPutAt(img: Img, files: seq<Img>, f: Img, i: nat)
    requires Laid(img, files) && i <= |files| < MAX_FILES
    ensures LaidAt(Put(img, 8 + 8 * |files|, End(DATA, files), f), files + [f], i)
  {
    hide Put, LaidAt;
    if i < |files| {
      LaidPutBelow(img, files, f, i);
    } else {
      LaidPutThere(img, files, f);
    }
  }

  lemma LaidPut(img: Img, files: seq<Img>, f: Img)
    requires Laid(img, files) && |files| < MAX_FILES
    ensures Laid(Put(img, 8 + 8 * |files|, End(DATA, files), f), files + [f])
  {
    hide LaidAt, Put, End;
    LaidPutLength(img, files, f);
    var r, all := Put(img, 8 + 8 * |files|, End(DATA, files), f), files + [f];
    forall i | 0 <= i < |all|
      ensures LaidAt(r, all, i)
    {
      LaidPutAt(img, files, f, i);
    }
  }

  lemma {:induction false} EndAppend(wpos: nat, a: seq<Img>, b: seq<Img>)
    ensures End(wpos, a + b) == End(End(wpos, a), b)
    decreases |b|
  {
    if b == [] {
      assert a + b == a;
    } else {
      var n := |b| - 1;
      EndAppend(wpos, a, b[..n]);
      assert (a + b)[..|a| + n] == a + b[..n];
    }
  }

  /** Writing more files keeps the layout. */
  lemma {:induction false} LaidPutAll(img: Img, files: seq<Img>, more: seq<Img>)
    requires Laid(img, files) && |files| + |more| <= MAX_FILES
    ensures Laid(PutAll(img, 8 + 8 * |files|, End(DATA, files), more), files + more)
    decreases |more|
  {
    hide LaidAt, Put;
    if more == [] {
      assert files + more == files;
    } else {
      var n := |more| - 1;
      LaidPutAll(img, files, more[..n]);
      EndAppend(DATA, files, more[..n]);
      LaidPut(PutAll(img, 8 + 8 * |files|, End(DATA, files), more[..n]), files + more[..n], more[n]);
      assert files + more == (files + more[..n]) + [more[n]];
    }
  }

  lemma LaidHeader(img: Img, files: seq<Img>, n: nat)
    requires Laid(img, files)
    ensures Laid(Overwrite(img, 0, Header(n)), files)
  {
    forall i | 0 <= i < |files|
      ensures LaidAt(Overwrite(img, 0, Header(n)), files, i)
    {
      assert LaidAt(img, files, i);
      RangeKept(img, 0, Header(n), 8 + 8 * i, 8);
      RangeKept(img, 0, Header(n), End(DATA, files[..i]), |files[i]|);
    }
  }

  lemma SlotReads(img: Img, i: nat, off: nat, f: Img)
    requires Slot(img, 8 + 8 * i, off, f) && off < WORD && |f| < WORD
    ensures File(img, i) == Ok(f)
  {
    hide Le32, FromLe32;
    var e := img[8 + 8 * i..16 + 8 * i];
    assert img[8 + 8 * i..12 + 8 * i] == e[..4] == Le32(off);
    assert img[12 + 8 * i..16 + 8 * i] == e[4..] == Le32(|f|);
    Le32RoundTrip(off);
    Le32RoundTrip(|f|);
  }

  lemma HeaderReads(img: Img, n: nat)
    requires Range(img, 0, 8) == Some(Header(n)) && n < WORD
    ensures Entries(img) == Some(n)
  {
    var h := img[0..8];
    assert img[..4] == h[..4] == MAGIC && img[4..8] == h[4..] == Le32(n);
    Le32RoundTrip(n);
  }

  lemma LaidScans(img: Img, files: seq<Img>)
    requires Laid(img, files) && Fits(files) && Range(img, 0, 8) == Some(Header(|files|))
    ensures Scan(img) == Ok(files)
  {
    HeaderReads(img, |files|);
    forall i | 0 <= i < |files|
      ensures File(img, i) == Ok(files[i])
    {
      assert LaidAt(img, files, i) && FitsAt(files, i);
      SlotReads(img, i, End(DATA, files[..i]), files[i]);
    }
    ScanFinds(img, files);
  }

  lemma {:induction false} HeaderKept(img: Img, fpos: nat, wpos: nat, files: seq<Img>)
    requires Range(img, 0, 8).Some? && fpos >= 8 && wpos >= 8
    ensures Range(PutAll(img, fpos, wpos, files), 0, 8) == Range(img, 0, 8)
    decreases |files|
  {
    hide Overwrite, PutRecord, Range;
    if files != [] {
      var n := |files| - 1;
      var was := PutAll(img, fpos, wpos, files[..n]);
      HeaderKept(img, fpos, wpos, files[..n]);
      PutKeeps(was, fpos + 8 * n, Entry(End(wpos, files[..n]), |files[n]|), End(wpos, files[..n]), files[n], 0, 8);
    }
  }

  // ---------------------------------------------------------------- the round trips

  lemma LaidFromEmpty(img: Img, files: seq<Img>)
    requires |img| <= 8 && |files| <= MAX_FILES
    ensures Laid(PutAll(img, 8, DATA, files), files)
  {
    hide LaidAt, Put;
    LaidPutAll(img, [], files);
    assert [] + files == files;
  }

  lemma CreatedScans(files: seq<Img>)
    requires |files| <= MAX_FILES && Fits(files)
    ensures Scan(Created(files)) == Ok(files)
  {
    hide LaidAt, FitsAt, Put, End, PutAll, Scan, Overwrite, Entries, File;
    var h := Header(|files|);
    assert h[0..8] == h;
    LaidFromEmpty(h, files);
    HeaderKept(h, 8, DATA, files);
    LaidScans(Created(files), files);
  }

  /** A header on top of what has been laid out. */
  lemma LaidWithHeader(img: Img, files: seq<Img>, n: nat)
    requires Laid(img, files)
    ensures Laid(Overwrite(img, 0, Header(n)), files)
    ensures Range(Overwrite(img, 0, Header(n)), 0, 8) == Some(Header(n))
  {
    LaidHeader(img, files, n);
    WrittenThere(img, 0, Header(n));
  }

  lemma RewrittenScans(files: seq<Img>)
    requires |files| <= MAX_FILES && Fits(files)
    ensures Scan(Rewritten(files)) == Ok(files)
  {
    LaidFromEmpty([], files);
    LaidWithHeader(PutAll([], 8, DATA, files), files, |files|);
    LaidScans(Rewritten(files), files);
  }

  lemma AddedLaid(img: Img, was: seq<Img>, more: seq<Img>)
    requires Laid(img, was) && |was| + |more| <= MAX_FILES && Range(img, 0, 8).Some?
    ensures
      var r := PutAll(img, 8 + 8 * |was|, End(DATA, was), more);
      Laid(r, was + more) && Range(r, 0, 8) == Range(img, 0, 8)
  {
    hide Put, LaidAt, Slot, Overwrite, Range;
    LaidPutAll(img, was, more);
    HeaderKept(img, 8 + 8 * |was|, End(DATA, was), more);
  }

  lemma AddedScans(was: seq<Img>, more: seq<Img>)
    requires was != [] && |was| + |more| <= MAX_FILES && Fits(was + more)
    ensures Scan(Added(was, more)) == Ok(was + more)
  {
    hide Scan, Laid, Fits, PutAll, Overwrite, Range, End;
    var n, img := |was| + |more|, PutAll([], 8, DATA, was);
    LaidFromEmpty([], was);
    LaidWithHeader(img, was, n);
    AddedLaid(Overwrite(img, 0, Header(n)), was, more);
    LaidScans(Added(was, more), was + more);
  }

  // ---------------------------------------------------------------- adding to an empty archive

  predicate AddWorks(was: seq<Img>, more: seq<Img>) {
    Scan(Added(was, more)) == Ok(was + more)
  }

  /** Eight zero bytes, which hide their own table entry, and nothing else. */
  function Lost(n: nat): (files: seq<Img>)
    requires n > 0
    ensures |files| == n
  {
    seq(n, i => if i == 0 then Zeros(8) else [])
  }

  lemma {:induction false} SmallFilesEnd(wpos: nat, files: seq<Img>)
    requires forall i :: 0 <= i < |files| ==> |files[i]| <= 8
    ensures End(wpos, files) <= wpos + 2056 * |files|
    decreases |files|
  {
    if files != [] {
      SmallFilesEnd(wpos, files[..|files| - 1]);
    }
  }

  lemma LostFits(n: nat)
    requires 0 < n <= MAX_FILES
    ensures Fits(Lost(n))
  {
    forall i | 0 <= i < n
      ensures FitsAt(Lost(n), i)
    {
      SmallFilesEnd(DATA, Lost(n)[..i]);
    }
  }

  lemma FirstLost(img: Img)
    ensures Range(Put(img, 8, 8, Zeros(8)), 8, 8) == Some(Zeros(8))
  {
    var img1 := Overwrite(img, 8, Entry(8, 8));
    WrittenThere(img1, 8, Zeros(8));
    RangeKept(Overwrite(img1, 8, Zeros(8)), PadUp(16) - 1, [0], 8, 8);
  }

  lemma {:induction false} TableLost(img: Img, n: nat, k: nat)
    requires 0 < k <= n
    ensures Range(PutAll(img, 8, 8, Lost(n)[..k]), 8, 8) == Some(Zeros(8))
    ensures End(8, Lost(n)[..k]) >= 2048
    decreases k
  {
    hide Overwrite, PutRecord, Range;
    var files := Lost(n)[..k];
    assert files[..k - 1] == Lost(n)[..k - 1];
    if k == 1 {
      assert files == [Zeros(8)];
      FirstLost(img);
    } else {
      TableLost(img, n, k - 1);
      PutKeeps(PutAll(img, 8, 8, files[..k - 1]), 8 + 8 * (k - 1), Entry(End(8, files[..k - 1]), |files[k - 1]|),
               End(8, files[..k - 1]), files[k - 1], 8, 8);
    }
  }

  lemma ZeroEntry(r: Img)
    requires Range(r, 8, 8) == Some(Zeros(8))
    ensures File(r, 0) != Ok(Zeros(8))
  {
    var e := r[8..16];
    assert r[8..12] == e[..4] == Zeros(4) && r[12..16] == e[4..] == Zeros(4);
  }

  lemma LostIsLost(n: nat)
    requires n > 0
    ensures !AddWorks([], Lost(n))
  {
    hide Overwrite, File, Range, End;
    var img := Overwrite(PutAll([], 8, DATA, []), 0, Header(n));
    TableLost(img, n, n);
    assert Lost(n)[..n] == Lost(n);
    ZeroEntry(PutAll(img, 8, 8, Lost(n)));
    assert [] + Lost(n) == Lost(n);
    ScanFinds(Added([], Lost(n)), Lost(n));
  }

  /** Adding any `n` files works exactly for the archives that are not empty. */
  lemma AddNeedsFiles(was: seq<Img>, n: nat)
    requires n > 0 && |was| + n <= MAX_FILES
    ensures (forall more: seq<Img> :: |more| == n && Fits(was + more) ==> AddWorks(was, more)) <==> was != []
  {
    if was == [] {
      LostFits(n);
      assert [] + Lost(n) == Lost(n);
      LostIsLost(n);
    } else {
      forall more: seq<Img> | |more| == n && Fits(was + more)
        ensures AddWorks(was, more)
      {
        AddedScans(was, more);
      }
    }
  }
}
