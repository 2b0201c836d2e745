/** The archive tool for AFS files: create, add, update and delete, over files that it seeks in. */
module AfsTool {
  import opened Bytes
  import opened Image
  import opened AfsFormat

  // ---------------------------------------------------------------- steps of all commands

  /** Writes one table entry, then the file behind the others, and the padding. */
  method PutFile(out: MemFile, src: MemFile, fpos: nat, wpos: nat, size: nat) returns (rv: int)
    requires out != src
    modifies out, src
    ensures src.data == old(src.data)
    ensures rv == 0 <==> Range(src.data, old(src.pos), size).Some?
    ensures rv == 0 ==>
      && out.data == Put(old(out.data), fpos, wpos, Range(src.data, old(src.pos), size).value)
      && out.pos == PadUp(wpos + size)
  {
    hide Overwrite, Entry, Range;
    out.Seek(fpos);
    out.Write(Entry(wpos, size));
    out.Seek(wpos);
    rv := CopyFile(out, src, size);
    if rv == 0 {
      PadFile(out);
    }
  }

  /** Reads table entry `i` and seeks to its file. */
  method SeekEntry(fp: MemFile, i: nat) returns (rv: int, size: nat, next: nat)
    requires fp.pos == 8 + 8 * i
    modifies fp
    ensures fp.data == old(fp.data) && size < WORD
    ensures rv == if |fp.data| < 12 + 8 * i then -2 else if |fp.data| < 16 + 8 * i then -3 else 0
    ensures rv != 0 ==> File(fp.data, i) == Err(rv)
    ensures rv == 0 ==>
      && next == 16 + 8 * i
      && File(fp.data, i) == match Range(fp.data, fp.pos, size) { case None => Err(-5) case Some(f) => Ok(f) }
  {
    size, next := 0, 0;
    var b := fp.Read(4);
    if |b| != 4 {
      return -2, size, next;
    }
    var off := FromLe32(b);
    b := fp.Read(4);
    if |b| != 4 {
      return -3, size, next;
    }
    size := FromLe32(b);
    next := fp.pos;
    fp.Seek(off);
    rv := 0;
  }

  /** Opens an archive behind its header. */
  method OpenAfs(img: Img) returns (fp: MemFile, entries: Option<nat>)
    ensures fresh(fp) && fp.data == img && entries == Entries(img)
    ensures entries.Some? ==> fp.pos == 8
  {
    fp := new MemFile(img);
    entries := None;
    var magic := fp.Read(4);
    if |magic| == 4 && magic == MAGIC {
      var b := fp.Read(4);
      if |b| == 4 {
        entries := Some(FromLe32(b));
      }
    }
  }

  /** A new archive with its position behind the header, and where the data will start. */
  method NewArchive(header: Img) returns (out: MemFile, wpos: nat)
    ensures fresh(out) && out.data == header && out.pos == 8 && wpos == DATA
  {
    out := new MemFile([]);
    out.Write(header);
    out.Seek(0x80000);
    wpos := out.pos;
    out.Seek(8);
  }

  method WriteHeader(out: MemFile, n: nat)
    modifies out
    ensures out.data == Overwrite(old(out.data), 0, Header(n))
  {
    out.Seek(0);
    out.Write(Header(n));
  }

  // ---------------------------------------------------------------- input files

  /** Files that can be opened; a size is 32 bits, so of a longer file only the rest is stored. */
  predicate AllOpen(files: seq<Option<Img>>) {
    forall i :: 0 <= i < |files| ==> files[i].Some?
  }

  function Stored(f: Img): (r: Img)
    ensures |r| == |f| % WORD
  {
    f[..|f| % WORD]
  }

  /** Of a file below 4 GiB everything is stored. */
  lemma WholeStored(f: Img)
    requires |f| < 0x1_0000_0000
    ensures Stored(f) == f
  {
  }

  function Contents(files: seq<Option<Img>>): (r: seq<Img>)
    requires AllOpen(files)
    ensures |r| == |files|
  {
    seq(|files|, i requires 0 <= i < |files| => Stored(files[i].value))
  }

  lemma StoredIs(f: Img)
    ensures Range(f, 0, |f| % WORD) == Some(Stored(f))
  {
  }

  method AddFiles(out: MemFile, fpos: nat, wpos: nat, files: seq<Option<Img>>) returns (rv: int)
    modifies out
    ensures rv == 0 <==> AllOpen(files)
    ensures rv == 0 ==> out.data == PutAll(old(out.data), fpos, wpos, Contents(files))
  {
    hide Put, Overwrite, PutAll, End, Stored;
    PutNone(out.data, fpos, wpos);
    var f, w := fpos, wpos;
    ghost var was := out.data;
    for i := 0 to |files|
      invariant AllOpen(files[..i])
      invariant f == fpos + 8 * i && w == End(wpos, Contents(files[..i]))
      invariant out.data == PutAll(was, fpos, wpos, Contents(files[..i]))
    {
      if files[i].None? {
        return -1;
      }
      var ifp := new MemFile(files[i].value);
      rv := PutFile(out, ifp, f, w, |files[i].value| % WORD);
      StoredIs(files[i].value);
      PutOne(was, fpos, wpos, Contents(files[..i]), Stored(files[i].value));
      assert Contents(files[..i + 1]) == Contents(files[..i]) + [Stored(files[i].value)];
      f, w := f + 8, out.pos;
    }
    assert files[..|files|] == files;
    return 0;
  }

  // ---------------------------------------------------------------- create

  method Create(files: seq<Option<Img>>) returns (rv: int, img: Img)
    ensures rv == if |files| > MAX_FILES then -14 else if !AllOpen(files) then -6 else 0
    ensures rv == 0 ==> img == Created(Contents(files))
    ensures rv == 0 && Fits(Contents(files)) ==> Scan(img) == Ok(Contents(files))
  {
    hide PutAll, Scan, Fits;
    img := [];
    if |files| > 65535 {
      return -14, img;
    }
    var out, wpos := NewArchive(Header(|files|));
    rv := AddFiles(out, 8, wpos, files);
    if rv != 0 {
      return -6, img;
    }
    img := out.data;
    if Fits(Contents(files)) {
      CreatedScans(Contents(files));
    }
  }

  // ---------------------------------------------------------------- the callbacks of a scan

  /** What a scan does with each file: copies it, or replaces one, or leaves some out. */
  datatype Callback =
    | CopyAll
    | CopyUpdate(item: nat, file: Option<Img>)
    | CopyFiltered(items: seq<nat>)

  predicate Skips(c: Callback, i: nat) {
    match c
    case CopyAll => false
    case CopyUpdate(item, _) => i == item
    case CopyFiltered(items) => i in items
  }

  /** What comes in the place of a skipped file, unless it cannot be opened. */
  function Instead(c: Callback): Option<seq<Img>> {
    match c
    case CopyAll => Some([])
    case CopyUpdate(_, file) => if file.None? then None else Some([Stored(file.value)])
    case CopyFiltered(_) => Some([])
  }

  /** The files that the callback has written after `n` entries, or the code of the first failure.
      The data of a skipped file is never read. */
  function Edited(img: Img, c: Callback, n: nat): Result<seq<Img>> {
    if n == 0 then Ok([])
    else
      match Edited(img, c, n - 1)
      case Err(code) => Err(code)
      case Ok(fs) => Step(img, c, n - 1, fs)
  }

  function Step(img: Img, c: Callback, i: nat, fs: seq<Img>): Result<seq<Img>> {
    if |img| < 12 + 8 * i then Err(-2)
    else if |img| < 16 + 8 * i then Err(-3)
    else if Skips(c, i) then (if Instead(c).None? then Err(-5) else Ok(fs + Instead(c).value))
    else
      match File(img, i)
      case Err(code) => Err(code)
      case Ok(f) => Ok(fs + [f])
  }

  /** What a whole scan returns: the count, or a negative code. */
  function Returned(img: Img, c: Callback): int {
    match Entries(img)
    case None => -1
    case Some(n) =>
      match Edited(img, c, n)
      case Err(code) => code
      case Ok(_) => if n >= 0x8000_0000 then n - WORD else n
  }

  /** The limits inside which the add command's 32-bit positions are right. */
  ghost predicate Small(files: seq<Img>) {
    |files| <= MAX_FILES && Fits(files)
  }

  lemma SmallPrefix(files: seq<Img>, f: Img)
    requires Small(files + [f])
    ensures Small(files) && End(DATA, files) < WORD
  {
    var all := files + [f];
    assert FitsAt(all, |files|);
    assert all[..|files|] == files;
    forall i | 0 <= i < |files|
      ensures FitsAt(files, i)
    {
      assert FitsAt(all, i);
      assert all[..i] == files[..i];
    }
  }

  lemma PutOne(img: Img, fpos: nat, wpos: nat, files: seq<Img>, f: Img)
    ensures PutAll(img, fpos, wpos, files + [f]) ==
      Put(PutAll(img, fpos, wpos, files), fpos + 8 * |files|, End(wpos, files), f)
    ensures End(wpos, files + [f]) == PadUp(End(wpos, files) + |f|)
  {
    hide Put;
    assert (files + [f])[..|files|] == files;
  }

  /** The state of the output while the callback writes. */
  ghost predicate Writing(c: Callback, out: MemFile, fpos: nat, wpos: nat, fs: seq<Img>)
    reads out
  {
    if c.CopyAll? then
      Small(fs) ==> out.data == PutAll([], 8, DATA, fs) && out.pos == if fs == [] then 8 else End(DATA, fs)
    else out.data == PutAll([], 8, DATA, fs) && fpos == 8 + 8 * |fs| && wpos == End(DATA, fs)
  }

  /** The callback that copies: the positions come from the output file. */
  method CopyFileCb(fp: MemFile, i: nat, size: nat, out: MemFile, ghost fs: seq<Img>) returns (rv: int)
    requires fp != out && |fs| == i && Writing(CopyAll, out, 0, 0, fs)
    modifies fp, out
    ensures fp.data == old(fp.data)
    ensures rv == 0 <==> Range(fp.data, old(fp.pos), size).Some?
    ensures rv == 0 ==> Writing(CopyAll, out, 0, 0, fs + [Range(fp.data, old(fp.pos), size).value])
  {
    hide Put, PutAll, End, Fits, Range;
    var fpos := 8 * i % WORD + 8;
    var wpos := if i == 0 then 0x80000 else out.pos % WORD;
    ghost var f := Range(fp.data, fp.pos, size);
    if f.Some? && Small(fs + [f.value]) {
      SmallPrefix(fs, f.value);
      PutOne([], 8, DATA, fs, f.value);
      StartsAt(fs);
    }
    rv := PutFile(out, fp, fpos, wpos, size);
  }

  lemma StartsAt(fs: seq<Img>)
    ensures fs == [] ==> End(DATA, fs) == DATA && PutAll([], 8, DATA, fs) == []
  {
  }

  /** The callback that replaces one file and copies the others. */
  method CopyUpdateCb(fp: MemFile, i: nat, size: nat, c: Callback, out: MemFile, fpos: nat, wpos: nat, ghost fs: seq<Img>)
    returns (rv: int, fpos': nat, wpos': nat)
    requires fp != out && c.CopyUpdate? && Writing(c, out, fpos, wpos, fs)
    modifies fp, out
    ensures fp.data == old(fp.data)
    ensures rv == 0 <==> if i == c.item then c.file.Some? else Range(fp.data, old(fp.pos), size).Some?
    ensures rv == 0 ==>
      Writing(c, out, fpos', wpos', fs + [if i == c.item then Stored(c.file.value) else Range(fp.data, old(fp.pos), size).value])
  {
    hide Put, PutAll, End, Range, Stored;
    fpos', wpos' := fpos, wpos;
    if c.item == i {
      rv := AddFiles(out, fpos, wpos, [c.file]);
      assert AllOpen([c.file]) <==> [c.file][0].Some?;
      if rv != 0 {
        return -6, fpos', wpos';
      }
      OneFile(out.data, old(out.data), fpos, wpos, c.file, fs);
      fpos', wpos' := fpos + 8, PadUp(wpos + |c.file.value| % WORD);
      return;
    }
    rv := PutFile(out, fp, fpos, wpos, size);
    if rv == 0 {
      PutOne([], 8, DATA, fs, Range(fp.data, old(fp.pos), size).value);
      fpos', wpos' := fpos + 8, out.pos;
    }
  }

  lemma OneFile(img: Img, was: Img, fpos: nat, wpos: nat, file: Option<Img>, fs: seq<Img>)
    requires file.Some? && AllOpen([file]) && img == PutAll(was, fpos, wpos, Contents([file]))
    requires was == PutAll([], 8, DATA, fs) && fpos == 8 + 8 * |fs| && wpos == End(DATA, fs)
    ensures img == PutAll([], 8, DATA, fs + [Stored(file.value)])
    ensures End(DATA, fs + [Stored(file.value)]) == PadUp(wpos + |file.value| % WORD)
  {
    hide Put, PutAll, End, Stored;
    var f := Stored(file.value);
    assert Contents([file]) == [f];
    assert [f] == [] + [f];
    PutOne(was, fpos, wpos, [], f);
    PutOne([], 8, DATA, fs, f);
    PutNone(was, fpos, wpos);
  }

  lemma PutNone(img: Img, fpos: nat, wpos: nat)
    ensures PutAll(img, fpos, wpos, []) == img && End(wpos, []) == wpos
  {
  }

  /** The callback that leaves out the listed files, and counts the others. */
  method CopyFilteredCb(fp: MemFile, i: nat, size: nat, c: Callback, out: MemFile, fpos: nat, wpos: nat, copied: nat, ghost fs: seq<Img>)
    returns (rv: int, fpos': nat, wpos': nat, copied': nat)
    requires fp != out && c.CopyFiltered? && Writing(c, out, fpos, wpos, fs) && copied == |fs|
    modifies fp, out
    ensures fp.data == old(fp.data)
    ensures rv == 0 <==> i in c.items || Range(fp.data, old(fp.pos), size).Some?
    ensures rv == 0 ==>
      var fs' := fs + if i in c.items then [] else [Range(fp.data, old(fp.pos), size).value];
      Writing(c, out, fpos', wpos', fs') && copied' == |fs'|
  {
    hide Put, PutAll, End, Range;
    fpos', wpos', copied' := fpos, wpos, copied;
    for j := 0 to |c.items|
      invariant i !in c.items[..j]
    {
      if c.items[j] == i {
        assert fs + [] == fs;
        rv := 0;
        return;
      }
    }
    assert c.items[..|c.items|] == c.items;
    rv := PutFile(out, fp, fpos, wpos, size);
    if rv == 0 {
      PutOne([], 8, DATA, fs, Range(fp.data, old(fp.pos), size).value);
      fpos', wpos', copied' := fpos + 8, out.pos, copied + 1;
    }
  }

  // ---------------------------------------------------------------- the scan of a rewriting command

  /** One entry: reads it, calls the callback, and returns to the table. */
  method ScanEntry(fp: MemFile, i: nat, c: Callback, out: MemFile, fpos: nat, wpos: nat, copied: nat, ghost fs: seq<Img>)
    returns (rv: int, fpos': nat, wpos': nat, copied': nat, ghost fs': seq<Img>)
    requires fp != out && fp.pos == 8 + 8 * i && (c.CopyAll? ==> |fs| == i) && (c.CopyFiltered? ==> |fs| == copied)
    requires Writing(c, out, fpos, wpos, fs)
    modifies fp, out
    ensures fp.data == old(fp.data)
    ensures rv != 0 ==> Step(fp.data, c, i, fs) == Err(rv)
    ensures rv == 0 ==>
      && Step(fp.data, c, i, fs) == Ok(fs') && (c.CopyAll? ==> |fs'| == i + 1) && (c.CopyFiltered? ==> |fs'| == copied')
      && fp.pos == 16 + 8 * i && Writing(c, out, fpos', wpos', fs')
  {
    hide PutAll, End, Small, Range, File, Stored;
    var size, next;
    fpos', wpos', copied', fs' := fpos, wpos, copied, fs;
    rv, size, next := SeekEntry(fp, i);
    if rv != 0 {
      return;
    }
    match c {
      case CopyAll =>
        rv := CopyFileCb(fp, i, size, out, fs);
      case CopyUpdate(_, _) =>
        rv, fpos', wpos' := CopyUpdateCb(fp, i, size, c, out, fpos, wpos, fs);
      case CopyFiltered(_) =>
        rv, fpos', wpos', copied' := CopyFilteredCb(fp, i, size, c, out, fpos, wpos, copied, fs);
    }
    if rv != 0 {
      rv := -5;
      return;
    }
    fs' := Step(fp.data, c, i, fs).value;
    fp.Seek(next);
  }

  method ScanAfs(img: Img, c: Callback, out: MemFile, wpos: nat) returns (rv: int, copied: nat, ghost fs: seq<Img>)
    requires out.data == [] && out.pos == 8 && wpos == DATA
    modifies out
    ensures rv == Returned(img, c)
    ensures rv >= 0 ==> Entries(img) == Some(rv) && Edited(img, c, rv) == Ok(fs) && (c.CopyAll? ==> |fs| == rv)
    ensures rv >= 0 && c.CopyFiltered? ==> copied == |fs|
    ensures rv >= 0 && (c.CopyAll? ==> Small(fs)) ==> out.data == PutAll([], 8, DATA, fs)
    ensures rv >= 0 && c.CopyAll? && Small(fs) ==> out.pos == if fs == [] then 8 else End(DATA, fs)
  {
    hide PutAll, End, Small, Step;
    copied, fs := 0, [];
    var fp, entries := OpenAfs(img);
    if entries.None? {
      return -1, copied, fs;
    }
    var n := entries.value;
    var f, w := 8, wpos;
    StartsAt([]);
    var i := 0;
    while i < n
      invariant 0 <= i <= n && fp != out && fp.data == img && fp.pos == 8 + 8 * i
      invariant Edited(img, c, i) == Ok(fs) && (c.CopyAll? ==> |fs| == i) && (c.CopyFiltered? ==> |fs| == copied)
      invariant Writing(c, out, f, w, fs)
    {
      rv, f, w, copied, fs := ScanEntry(fp, i, c, out, f, w, copied, fs);
      if rv != 0 {
        FirstError(img, c, i, n, rv);
        return;
      }
      i := i + 1;
    }
    rv := if n >= 0x8000_0000 then n - WORD else n;
  }

  lemma {:induction false} FirstError(img: Img, c: Callback, i: nat, n: nat, code: int)
    requires i < n && Edited(img, c, i).Ok? && Step(img, c, i, Edited(img, c, i).value) == Err(code)
    ensures Edited(img, c, n) == Err(code) && code < 0
    decreases n
  {
    if i + 1 < n {
      FirstError(img, c, i, n - 1, code);
    }
  }

  // ---------------------------------------------------------------- add, update, delete

  method Add(img: Img, files: seq<Option<Img>>) returns (rv: int, r: Img)
    ensures Scan(img).Err? ==> rv == -5
    ensures Scan(img).Ok? ==>
      rv == if |Scan(img).value| + |files| > MAX_FILES then -6 else if !AllOpen(files) then -10 else 0
    ensures rv == 0 && Fits(Scan(img).value + Contents(files)) ==>
      && r == Added(Scan(img).value, Contents(files))
      && (Scan(img).value != [] ==> Scan(r) == Ok(Scan(img).value + Contents(files)))
  {
    hide PutAll, End, Fits, Contents;
    r := [];
    var out, wpos := NewArchive([]);
    var copied;
    ghost var fs;
    rv, copied, fs := ScanAfs(img, CopyAll, out, wpos);
    CopiesAll(img);
    if rv < 0 {
      return -5, r;
    }
    if rv + |files| > 65535 {
      return -6, r;
    }
    wpos := out.pos;
    var entries := rv;
    WriteHeader(out, entries + |files|);
    rv := AddFiles(out, 8 + 8 * entries, wpos, files);
    if rv != 0 {
      return -10, r;
    }
    r := out.data;
    if Fits(fs + Contents(files)) {
      FitsLeft(fs, Contents(files));
      if fs != [] {
        AddedScans(fs, Contents(files));
      }
    }
  }

  lemma FitsLeft(a: seq<Img>, b: seq<Img>)
    requires Fits(a + b)
    ensures Fits(a)
  {
    forall i | 0 <= i < |a|
      ensures FitsAt(a, i)
    {
      assert FitsAt(a + b, i);
      assert (a + b)[..i] == a[..i];
    }
  }

  /** The archive holds the files that the callback has written, all of them if they keep to the limits;
      whether or not the source scans as a whole. */
  ghost predicate RewrittenAs(img: Img, c: Callback, n: nat, r: Img) {
    Edited(img, c, n).Ok? &&
    var fs := Edited(img, c, n).value;
    r == Rewritten(fs) && (|fs| <= MAX_FILES && Fits(fs) ==> Scan(r) == Ok(fs))
  }

  lemma WrittenAs(img: Img, c: Callback, n: nat, r: Img)
    requires Edited(img, c, n).Ok? && r == Rewritten(Edited(img, c, n).value)
    ensures RewrittenAs(img, c, n, r)
  {
    hide Edited, Rewritten, Scan, Fits;
    var fs := Edited(img, c, n).value;
    if |fs| <= MAX_FILES && Fits(fs) {
      RewrittenScans(fs);
    }
  }

  /** An update writes a file for every entry. */
  lemma {:induction false} EditedLength(img: Img, c: Callback, n: nat)
    requires c.CopyUpdate? && Edited(img, c, n).Ok?
    ensures |Edited(img, c, n).value| == n
    decreases n
  {
    hide File, Stored;
    if n > 0 {
      EditedLength(img, c, n - 1);
    }
  }

  /** Replaces one file.  Success needs every other file, but not the data of the replaced one. */
  method Update(img: Img, item: nat, file: Option<Img>) returns (rv: int, r: Img)
    ensures var n := Returned(img, CopyUpdate(item, file));
      && rv == (if n < 0 then -7 else if item >= n then -8 else 0)
      && (rv == 0 ==> RewrittenAs(img, CopyUpdate(item, file), n, r))
    ensures rv == 0 && Scan(img).Ok? ==> file.Some? && item < |Scan(img).value|
    ensures rv == 0 && Scan(img).Ok? && |Scan(img).value| <= MAX_FILES ==>
      var files := Scan(img).value[item := Stored(file.value)];
      r == Rewritten(files) && (Fits(files) ==> Scan(r) == Ok(files))
  {
    hide PutAll, End, Fits, Stored;
    r := [];
    var out, wpos := NewArchive([]);
    var copied;
    ghost var fs;
    rv, copied, fs := ScanAfs(img, CopyUpdate(item, file), out, wpos);
    if rv < 0 {
      return -7, r;
    }
    if item >= rv {
      return -8, r;
    }
    WriteHeader(out, rv);
    r := out.data;
    EditedLength(img, CopyUpdate(item, file), rv);
    WrittenAs(img, CopyUpdate(item, file), rv, r);
    if Scan(img).Ok? {
      Replaces(img, item, file, rv);
      if |fs| <= MAX_FILES && Fits(fs) {
        RewrittenScans(fs);
      }
    }
    rv := 0;
  }

  method Delete(img: Img, items: seq<nat>) returns (rv: int, r: Img)
    ensures var n := Returned(img, CopyFiltered(items));
      && rv == (if n < 0 then -7 else if exists j :: 0 <= j < |items| && items[j] >= n then -8 else 0)
      && (rv == 0 ==> RewrittenAs(img, CopyFiltered(items), n, r))
    ensures rv == 0 && Scan(img).Ok? && |Scan(img).value| <= MAX_FILES ==>
      var files := Kept(Scan(img).value, items);
      r == Rewritten(files) && (Fits(files) ==> Scan(r) == Ok(files))
  {
    hide PutAll, End, Fits;
    r := [];
    var out, wpos := NewArchive([]);
    var copied;
    ghost var fs;
    rv, copied, fs := ScanAfs(img, CopyFiltered(items), out, wpos);
    if rv < 0 {
      return -7, r;
    }
    for j := 0 to |items|
      invariant forall k :: 0 <= k < j ==> items[k] < rv
    {
      if items[j] >= rv {
        return -8, r;
      }
    }
    WriteHeader(out, copied);
    r := out.data;
    WrittenAs(img, CopyFiltered(items), rv, r);
    if Scan(img).Ok? {
      Filters(img, items, rv);
      if |fs| <= MAX_FILES && Fits(fs) {
        RewrittenScans(fs);
      }
    }
    rv := 0;
  }

  // ---------------------------------------------------------------- what the commands mean for the lists

  /** The files that stay when the listed indices go. */
  function Kept(files: seq<Img>, items: seq<nat>): (r: seq<Img>)
    ensures |r| <= |files|
  {
    if files == [] then []
    else
      var n := |files| - 1;
      Kept(files[..n], items) + if n in items then [] else [files[n]]
  }

  /** How many of the first `n` indices stay. */
  function Rank(items: seq<nat>, n: nat): (r: nat)
    ensures r <= n
  {
    if n == 0 then 0 else Rank(items, n - 1) + if n - 1 in items then 0 else 1
  }

  lemma {:induction false} RankGrows(items: seq<nat>, i: nat, n: nat)
    requires i < n && i !in items
    ensures Rank(items, i) < Rank(items, n)
    decreases n
  {
    if i < n - 1 {
      RankGrows(items, i, n - 1);
    }
  }

  /** Every file that stays is found where the indices that stay before it say, and there are no
      others. */
  lemma {:induction false} KeptAt(files: seq<Img>, items: seq<nat>, i: nat)
    requires i < |files|
    ensures |Kept(files, items)| == Rank(items, |files|)
    ensures i !in items ==> Rank(items, i) < |Kept(files, items)| && Kept(files, items)[Rank(items, i)] == files[i]
    decreases |files|
  {
    var n := |files| - 1;
    if n > 0 {
      KeptAt(files[..n], items, if i < n then i else n - 1);
    }
    if i < n && i !in items {
      RankGrows(items, i, n);
    }
  }

  lemma CopiesAll(img: Img)
    ensures Scan(img) == if Returned(img, CopyAll) < 0 then Err(Returned(img, CopyAll))
                         else Edited(img, CopyAll, Entries(img).value)
  {
    hide File;
    match Entries(img)
    case None =>
    case Some(n) => EditedAll(img, n);
  }

  lemma {:induction false} EditedAll(img: Img, n: nat)
    ensures Edited(img, CopyAll, n) == FilesUpTo(img, n)
    ensures Edited(img, CopyAll, n).Err? ==> Edited(img, CopyAll, n).code < 0
  {
    if n > 0 {
      EditedAll(img, n - 1);
    }
  }

  lemma FileThere(img: Img, i: nat)
    requires File(img, i).Ok?
    ensures |img| >= 16 + 8 * i
  {
  }

  lemma {:induction false} EditedOne(img: Img, item: nat, file: Option<Img>, n: nat, files: seq<Img>)
    requires FilesUpTo(img, n) == Ok(files)
    ensures |files| == n
    ensures Edited(img, CopyUpdate(item, file), n) ==
      if item >= n then Ok(files) else if file.None? then Err(-5) else Ok(files[item := Stored(file.value)])
  {
    hide Stored, File;
    if n > 0 {
      var before := FilesUpTo(img, n - 1).value;
      FileThere(img, n - 1);
      EditedOne(img, item, file, n - 1, before);
      assert files == before + [files[n - 1]];
      if file.Some? {
        var f := Stored(file.value);
        if item < n - 1 {
          assert files[item := f] == before[item := f] + [files[n - 1]];
        } else if item == n - 1 {
          assert files[item := f] == before + [f];
        }
      }
    }
  }

  lemma Replaces(img: Img, item: nat, file: Option<Img>, n: nat)
    requires Scan(img).Ok? && Returned(img, CopyUpdate(item, file)) == n && item < n
    ensures file.Some? && |Scan(img).value| == n
    ensures Edited(img, CopyUpdate(item, file), n) == Ok(Scan(img).value[item := Stored(file.value)])
  {
    hide File, Stored;
    EditedOne(img, item, file, Entries(img).value, Scan(img).value);
  }

  lemma {:induction false} EditedKept(img: Img, items: seq<nat>, n: nat, files: seq<Img>)
    requires FilesUpTo(img, n) == Ok(files)
    ensures |files| == n
    ensures Edited(img, CopyFiltered(items), n) == Ok(Kept(files, items))
  {
    hide File;
    if n > 0 {
      var before := FilesUpTo(img, n - 1).value;
      FileThere(img, n - 1);
      EditedKept(img, items, n - 1, before);
      assert files[..n - 1] == before;
    }
  }

  lemma Filters(img: Img, items: seq<nat>, n: nat)
    requires Scan(img).Ok? && Returned(img, CopyFiltered(items)) == n
    ensures |Scan(img).value| == n
    ensures Edited(img, CopyFiltered(items), n) == Ok(Kept(Scan(img).value, items))
  {
    hide File;
    EditedKept(img, items, Entries(img).value, Scan(img).value);
  }
}
