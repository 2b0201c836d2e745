/** The archive tool for GSL files: create, add, update and delete, with the byte order as its state. */
module GslTool {
  import opened Bytes
  import opened Image
  import opened Records
  import opened GslFormat

  // ---------------------------------------------------------------- inputs

  /** The last part of a path, as a C string. */
  type CName = n: Img | |n| > 0 && forall i :: 0 <= i < |n| ==> n[i] != 0 witness [1]

  /** A file to add; one that cannot be opened has no data. */
  datatype Input = Input(name: CName, data: Option<Img>)

  predicate Usable(f: Input) {
    f.data.Some? && |f.name| < 32
  }

  /** A size is 32 bits, so of a longer file only the rest is stored. */
  function Stored(f: Input): (m: Member)
    requires Usable(f)
    ensures ValidName(m.name)
  {
    Member(f.name, f.data.value[..|f.data.value| % WORD])
  }

  /** Of a file below 4 GiB everything is stored, under its name. */
  lemma WholeStored(f: Input)
    requires Usable(f) && |f.data.value| < 0x1_0000_0000
    ensures Stored(f) == Member(f.name, f.data.value)
  {
  }

  predicate AllUsable(files: seq<Input>) {
    forall i :: 0 <= i < |files| ==> Usable(files[i])
  }

  function Members(files: seq<Input>): (r: seq<Member>)
    requires AllUsable(files)
    ensures |r| == |files| && ValidNames(r)
  {
    seq(|files|, i requires 0 <= i < |files| => Stored(files[i]))
  }

  // ---------------------------------------------------------------- what a scan does with each file

  /** Counts the files, or copies them all, or replaces those with a name, or leaves some names out. */
  datatype Callback =
    | Count
    | CopyAll
    | CopyUpdate(fn: Img, input: Input)
    | CopyFiltered(names: seq<Img>)

  function Copied(img: Img, name: Img, at: nat, size: nat): Option<seq<Member>> {
    match Range(img, at, size)
    case None => None
    case Some(d) => Some([Member(name, d)])
  }

  /** What the callback writes for one entry, unless it fails. */
  function Piece(img: Img, c: Callback, name: Img, at: nat, size: nat): Option<seq<Member>> {
    match c
    case Count => Some([])
    case CopyAll => Copied(img, name, at, size)
    case CopyUpdate(fn, input) =>
      if name != fn then Copied(img, name, at, size)
      else if Usable(input) then Some([Stored(input)])
      else None
    case CopyFiltered(names) => if name in names then Some([]) else Copied(img, name, at, size)
  }

  datatype Edited = Edited(count: nat, files: seq<Member>)

  /** The rest of a scan from entry `i` on, after the callback has written `done`. */
  function EditFrom(o: Order, img: Img, c: Callback, i: nat, done: seq<Member>): Result<Edited>
    decreases |img| - 48 * i
  {
    match Peek(o, img, i)
    case Done => Ok(Edited(i, done))
    case Bad(code) => Err(code)
    case Item(name, at, size) =>
      match Piece(img, c, name, at, size)
      case None => Err(-7)
      case Some(ms) => EditFrom(o, img, c, i + 1, done + ms)
  }

  function Edit(o: Order, img: Img, c: Callback): Result<Edited> {
    match Resolve(o, img)
    case Err(code) => Err(code)
    case Ok(o') => EditFrom(o', img, c, 0, [])
  }

  function PieceOf(c: Callback, m: Member): seq<Member> {
    match c
    case Count => []
    case CopyAll => [m]
    case CopyUpdate(fn, input) => if m.name == fn && Usable(input) then [Stored(input)] else [m]
    case CopyFiltered(names) => if m.name in names then [] else [m]
  }

  /** The command on the list of files. */
  function Mapped(c: Callback, files: seq<Member>): seq<Member> {
    if files == [] then []
    else
      var n := |files| - 1;
      Mapped(c, files[..n]) + PieceOf(c, files[n])
  }

  predicate Applies(c: Callback, files: seq<Member>) {
    c.CopyUpdate? && (exists m :: m in files && m.name == c.fn) ==> Usable(c.input)
  }

  lemma EditOne(o: Order, img: Img, c: Callback, i: nat, m: Member, done: seq<Member>)
    requires Look(o, img, i) == Got(m)
    requires c.CopyUpdate? && m.name == c.fn ==> Usable(c.input)
    ensures EditFrom(o, img, c, i, done) == EditFrom(o, img, c, i + 1, done + PieceOf(c, m))
  {
    hide Peek, Range, Usable, Stored;
  }

  lemma MappedOne(c: Callback, files: seq<Member>, k: nat)
    requires k < |files|
    ensures Mapped(c, files[..k + 1]) == Mapped(c, files[..k]) + PieceOf(c, files[k])
  {
    hide PieceOf;
    assert files[..k + 1][..k] == files[..k];
  }

  lemma {:induction false} EditReaches(o: Order, img: Img, c: Callback, files: seq<Member>, k: nat)
    requires k <= |files| && Applies(c, files)
    requires forall i :: k <= i < |files| ==> Look(o, img, i) == Got(files[i])
    requires Look(o, img, |files|) == Stop
    ensures EditFrom(o, img, c, k, Mapped(c, files[..k])) == Ok(Edited(|files|, Mapped(c, files)))
    decreases |files| - k
  {
    if k < |files| {
      hide Look, EditFrom, Mapped, PieceOf, Usable;
      EditReaches(o, img, c, files, k + 1);
      assert files[k] in files;
      MappedOne(c, files, k);
      EditOne(o, img, c, k, files[k], Mapped(c, files[..k]));
    } else {
      hide Peek, Piece;
      assert files[..k] == files;
    }
  }

  /** On an archive that scans, a command does to the image what it does to the list. */
  lemma EditMaps(o: Order, img: Img, c: Callback, files: seq<Member>)
    requires Scan(o, img) == Ok(files) && Applies(c, files)
    ensures Edit(o, img, c) == Ok(Edited(|files|, Mapped(c, files)))
  {
    hide ScanFrom, Look, EditFrom;
    var o' := Resolve(o, img).value;
    ScanFinds(o', img, files);
    EditReaches(o', img, c, files, 0);
    assert files[..0] == [];
  }

  lemma {:induction false} MappedAll(files: seq<Member>)
    ensures Mapped(CopyAll, files) == files
    decreases |files|
  {
    if files != [] {
      MappedAll(files[..|files| - 1]);
    }
  }

  lemma {:induction false} MappedNames(c: Callback, files: seq<Member>)
    requires ValidNames(files)
    ensures ValidNames(Mapped(c, files)) && |Mapped(c, files)| <= |files|
    decreases |files|
  {
    if files != [] {
      MappedNames(c, files[..|files| - 1]);
    }
  }

  // ---------------------------------------------------------------- writing

  lemma PutOne(o: Order, img: Img, first: nat, wpos: nat, files: seq<Member>, m: Member)
    ensures PutAll(o, img, first, wpos, files + [m]) ==
      Put(o, PutAll(o, img, first, wpos, files), first + |files|, End(wpos, files), m)
    ensures End(wpos, files + [m]) == PadUp(End(wpos, files) + |m.data|)
  {
    hide Put;
    assert (files + [m])[..|files|] == files;
  }

  lemma {:induction false} PutAllAppend(o: Order, img: Img, wpos: nat, a: seq<Member>, b: seq<Member>)
    ensures PutAll(o, PutAll(o, img, 0, wpos, a), |a|, End(wpos, a), b) == PutAll(o, img, 0, wpos, a + b)
    decreases |b|
  {
    hide Put;
    if b == [] {
      assert a + b == a;
    } else {
      var n := |b| - 1;
      PutAllAppend(o, img, wpos, a, b[..n]);
      EndAppend(wpos, a, b[..n]);
      assert (a + b)[..|a| + n] == a + b[..n];
    }
  }

  /** Writes a table entry, then the data behind that of the others, and the padding. */
  method PutFile(o: Order, out: MemFile, src: MemFile, fpos: nat, wpos: nat, name: Img, size: nat) returns (rv: int)
    requires out != src
    modifies out, src
    ensures src.data == old(src.data)
    ensures rv == 0 <==> Range(src.data, old(src.pos), size).Some?
    ensures rv == 0 ==>
      && out.data == PutRecord(old(out.data), fpos, Entry(o, name, wpos, size), wpos, Range(src.data, old(src.pos), size).value)
      && out.pos == PadUp(wpos + size)
  {
    hide Overwrite, Entry, Range;
    out.Seek(fpos);
    out.Write(Entry(o, name, wpos, size));
    out.Seek(wpos);
    rv := CopyFile(out, src, size);
    if rv == 0 {
      PadFile(out);
    }
  }

  method AddFiles(o: Order, out: MemFile, ghost first: nat, fpos: nat, wpos: nat, files: seq<Input>)
    returns (rv: int, fpos': nat, wpos': nat)
    requires fpos == 48 * first
    modifies out
    ensures rv == 0 <==> AllUsable(files)
    ensures rv == 0 ==>
      && out.data == PutAll(o, old(out.data), first, wpos, Members(files))
      && fpos' == fpos + 48 * |files| && wpos' == End(wpos, Members(files))
  {
    hide PutRecord, Entry, Range, PutAll, End;
    fpos', wpos' := fpos, wpos;
    ghost var was := out.data;
    assert Members(files[..0]) == [];
    assert PutAll(o, was, first, wpos, []) == was && End(wpos, []) == wpos by {
      NoFiles(o, was, first, wpos);
    }
    for i := 0 to |files|
      invariant AllUsable(files[..i])
      invariant fpos' == fpos + 48 * i && wpos' == End(wpos, Members(files[..i]))
      invariant out.data == PutAll(o, was, first, wpos, Members(files[..i]))
    {
      var f := files[i];
      if f.data.None? {
        return -1, fpos', wpos';
      }
      if |f.name| >= 32 {
        return -11, fpos', wpos';
      }
      var ifp := new MemFile(f.data.value);
      WholeFile(f);
      rv := PutFile(o, out, ifp, fpos', wpos', f.name, |f.data.value| % WORD);
      MembersOne(files, i);
      PutOne(o, was, first, wpos, Members(files[..i]), Stored(f));
      fpos', wpos' := fpos' + 48, out.pos;
    }
    assert files[..|files|] == files;
    rv := 0;
  }

  lemma NoFiles(o: Order, img: Img, first: nat, wpos: nat)
    ensures PutAll(o, img, first, wpos, []) == img && End(wpos, []) == wpos
  {
  }

  lemma WholeFile(f: Input)
    requires Usable(f)
    ensures Range(f.data.value, 0, |f.data.value| % WORD) == Some(Stored(f).data)
  {
  }

  lemma MembersOne(files: seq<Input>, i: nat)
    requires i < |files| && AllUsable(files[..i]) && Usable(files[i])
    ensures AllUsable(files[..i + 1]) && Members(files[..i + 1]) == Members(files[..i]) + [Stored(files[i])]
  {
    hide Stored, Usable;
    var a, b := files[..i], files[..i + 1];
    assert forall j :: 0 <= j < i ==> b[j] == a[j];
    assert b[i] == files[i];
    assert AllUsable(b);
    assert forall j :: 0 <= j < i ==> Members(b)[j] == Members(a)[j];
  }

  // ---------------------------------------------------------------- the state of a scan

  /** The limits inside which the add command's 32-bit positions are right. */
  predicate Small(h: nat, files: seq<Member>) {
    End(h, files) < WORD && 48 * |files| < WORD
  }

  ghost predicate Writing(o: Order, h: nat, c: Callback, out: MemFile, fpos: nat, wpos: nat, i: nat, fs: seq<Member>)
    reads out
  {
    match c
    case Count => fs == []
    case CopyAll =>
      |fs| == i && (Small(h, fs) ==> out.data == Written(o, h, fs) && out.pos == End(h, fs))
    case _ => out.data == Written(o, h, fs) && fpos == 48 * |fs| && wpos == End(h, fs)
  }

  lemma WrittenOne(o: Order, h: nat, fs: seq<Member>, name: Img, data: Img)
    ensures Written(o, h, fs + [Member(name, data)]) ==
      PutRecord(Written(o, h, fs), 48 * |fs|, Entry(o, name, End(h, fs), |data|), End(h, fs), data)
    ensures End(h, fs + [Member(name, data)]) == PadUp(End(h, fs) + |data|)
    ensures Small(h, fs + [Member(name, data)]) ==> Small(h, fs)
  {
    hide PutRecord, PutAll, Entry;
    PutOne(o, [], 0, h, fs, Member(name, data));
  }

  lemma WrittenMore(o: Order, h: nat, fs: seq<Member>, more: seq<Member>)
    ensures PutAll(o, Written(o, h, fs), |fs|, End(h, fs), more) == Written(o, h, fs + more)
    ensures End(h, fs + more) == End(End(h, fs), more)
  {
    hide PutAll;
    PutAllAppend(o, [], h, fs, more);
    EndAppend(h, fs, more);
  }

  /** The callback that copies all files takes its positions from the output file. */
  method CopyFileCb(o: Order, fp: MemFile, i: nat, name: Img, size: nat, out: MemFile, ghost h: nat, ghost fs: seq<Member>)
    returns (rv: int)
    requires fp != out && Writing(o, h, CopyAll, out, 0, 0, i, fs)
    modifies fp, out
    ensures fp.data == old(fp.data)
    ensures rv == 0 <==> Range(fp.data, old(fp.pos), size).Some?
    ensures rv == 0 ==>
      Writing(o, h, CopyAll, out, 0, 0, i + 1, fs + [Member(name, Range(fp.data, old(fp.pos), size).value)])
  {
    hide PutRecord, PutAll, End, Range, Entry, Small;
    ghost var d := Range(fp.data, fp.pos, size);
    if d.Some? {
      WrittenOne(o, h, fs, name, d.value);
      if Small(h, fs) {
        SmallMeans(h, fs);
      }
    }
    rv := PutFile(o, out, fp, 48 * i % WORD, out.pos % WORD, name, size);
  }

  lemma SmallMeans(h: nat, fs: seq<Member>)
    requires Small(h, fs)
    ensures End(h, fs) % WORD == End(h, fs) && 48 * |fs| % WORD == 48 * |fs|
  {
  }

  /** The callbacks that carry their own positions. */
  method CopyEntry(o: Order, fp: MemFile, name: Img, size: nat, out: MemFile, fpos: nat, wpos: nat, ghost h: nat, ghost fs: seq<Member>)
    returns (rv: int, fpos': nat, wpos': nat)
    requires fp != out && out.data == Written(o, h, fs) && fpos == 48 * |fs| && wpos == End(h, fs)
    modifies fp, out
    ensures fp.data == old(fp.data)
    ensures rv == 0 <==> Range(fp.data, old(fp.pos), size).Some?
    ensures rv == 0 ==>
      var fs' := fs + [Member(name, Range(fp.data, old(fp.pos), size).value)];
      out.data == Written(o, h, fs') && fpos' == 48 * |fs'| && wpos' == End(h, fs')
  {
    hide PutRecord, PutAll, End, Range, Entry;
    fpos', wpos' := fpos, wpos;
    ghost var d := Range(fp.data, fp.pos, size);
    if d.Some? {
      WrittenOne(o, h, fs, name, d.value);
    }
    rv := PutFile(o, out, fp, fpos, wpos, name, size);
    if rv == 0 {
      fpos', wpos' := fpos + 48, out.pos;
    }
  }

  method ReplaceEntry(o: Order, input: Input, out: MemFile, fpos: nat, wpos: nat, ghost h: nat, ghost fs: seq<Member>)
    returns (rv: int, fpos': nat, wpos': nat)
    requires out.data == Written(o, h, fs) && fpos == 48 * |fs| && wpos == End(h, fs)
    modifies out
    ensures rv == 0 <==> Usable(input)
    ensures rv == 0 ==>
      var fs' := fs + [Stored(input)];
      out.data == Written(o, h, fs') && fpos' == 48 * |fs'| && wpos' == End(h, fs')
  {
    hide PutAll, End;
    rv, fpos', wpos' := AddFiles(o, out, |fs|, fpos, wpos, [input]);
    assert AllUsable([input]) <==> Usable([input][0]);
    if rv == 0 {
      assert Members([input]) == [Stored(input)];
      WrittenMore(o, h, fs, [Stored(input)]);
    }
  }

  method Listed(names: seq<Img>, name: Img) returns (found: bool)
    ensures found <==> name in names
  {
    for j := 0 to |names|
      invariant name !in names[..j]
    {
      if names[j] == name {
        return true;
      }
    }
    assert names[..|names|] == names;
    found := false;
  }

  /** Calls the callback for one entry; the archive stands at the entry's data. */
  method Call(o: Order, c: Callback, fp: MemFile, i: nat, name: Img, size: nat, out: MemFile, fpos: nat, wpos: nat,
              ghost h: nat, ghost fs: seq<Member>)
    returns (rv: int, fpos': nat, wpos': nat, ghost fs': seq<Member>)
    requires fp != out && Writing(o, h, c, out, fpos, wpos, i, fs)
    modifies fp, out
    ensures fp.data == old(fp.data)
    ensures rv == 0 <==> Piece(fp.data, c, name, old(fp.pos), size).Some?
    ensures rv == 0 ==>
      fs' == fs + Piece(fp.data, c, name, old(fp.pos), size).value && Writing(o, h, c, out, fpos', wpos', i + 1, fs')
  {
    hide PutAll, End, Range, Small, Usable, Stored;
    rv, fpos', wpos' := 0, fpos, wpos;
    ghost var ms := Piece(fp.data, c, name, fp.pos, size);
    fs' := if ms.Some? then fs + ms.value else fs;
    match c {
      case Count =>
        assert fs + [] == fs;
      case CopyAll =>
        rv := CopyFileCb(o, fp, i, name, size, out, h, fs);
      case CopyUpdate(fn, input) =>
        if name == fn {
          rv, fpos', wpos' := ReplaceEntry(o, input, out, fpos, wpos, h, fs);
        } else {
          rv, fpos', wpos' := CopyEntry(o, fp, name, size, out, fpos, wpos, h, fs);
        }
      case CopyFiltered(names) =>
        var found := Listed(names, name);
        if found {
          assert fs + [] == fs;
        } else {
          rv, fpos', wpos' := CopyEntry(o, fp, name, size, out, fpos, wpos, h, fs);
        }
    }
  }

  /** `img` is the archive of `files` behind `h` bytes of table space, and scans as such if the table
      leaves room. */
  ghost predicate Holds(o: Order, h: nat, files: seq<Member>, img: Img) {
    && img == Written(o, h, files)
    && (o != Auto && files != [] && 48 * |files| < h && Fits(h, files) ==> Scan(o, img) == Ok(files))
  }

  lemma WrittenHolds(o: Order, h: nat, files: seq<Member>)
    requires ValidNames(files) && h % 2048 == 0
    ensures Holds(o, h, files, Written(o, h, files))
  {
    hide PutAll, ScanFrom, Fits;
    if o != Auto && files != [] && 48 * |files| < h && Fits(h, files) {
      WrittenScans(o, h, files);
    }
  }

  lemma {:induction false} NoNul(b: Img)
    ensures forall i :: 0 <= i < |UpToNul(b)| ==> UpToNul(b)[i] != 0
    decreases |b|
  {
    if b != [] && b[0] != 0 {
      NoNul(b[1..]);
    }
  }

  lemma LookName(o: Order, img: Img, i: nat)
    requires Look(o, img, i).Got?
    ensures ValidName(Look(o, img, i).m.name)
  {
    hide FromWord32;
    NoNul(img[48 * i..48 * i + 32]);
  }

  lemma ScannedNames(o: Order, img: Img)
    requires Scan(o, img).Ok?
    ensures ValidNames(Scan(o, img).value)
  {
    hide ScanFrom, Look, Resolve, ValidName;
    var o', files := Resolve(o, img).value, Scan(o, img).value;
    ScanFinds(o', img, files);
    forall i | 0 <= i < |files|
      ensures ValidName(files[i].name)
    {
      assert Look(o', img, i) == Got(files[i]);
      LookName(o', img, i);
    }
  }

  // ---------------------------------------------------------------- the tool

  class Tool {
    var endianness: Order

    constructor (e: Order)
      ensures endianness == e
    {
      endianness := e;
    }

    /** Takes the byte order from the first sector number, if it is not known yet. */
    method Settle(b: Img, total: nat) returns (rv: int)
      requires |b| == 4
      modifies this
      ensures old(endianness) != Auto ==> rv == 0 && endianness == old(endianness)
      ensures old(endianness) == Auto ==>
        match Guess(b, total)
        case Err(code) => rv == code < 0
        case Ok(o) => rv == 0 && endianness == o != Auto
    {
      rv := 0;
      if endianness == Auto {
        var offset := FromWord32(Big, b);
        endianness := Big;
        if offset > total % WORD || offset * 2048 % WORD > total % WORD {
          offset := FromWord32(Little, b);
          endianness := Little;
          if offset * 2048 % WORD > total % WORD {
            rv := -9;
          }
        }
      }
    }

    /** Reads table entry `i` and seeks to its data: 0 for a file, 1 at the end of the table. */
    method ReadEntry(fp: MemFile, i: nat) returns (rv: int, name: Img, size: nat, next: nat)
      requires fp.pos == 48 * i && (endianness == Auto ==> i == 0)
      modifies this, fp
      ensures fp.data == old(fp.data)
      ensures match Resolve(old(endianness), fp.data)
        case Err(code) => rv == code < 0
        case Ok(o) =>
          && endianness == o
          && match Peek(o, fp.data, i)
             case Done => rv == 1
             case Bad(code) => rv == code < 0
             case Item(n, at, k) => o != Auto && rv == 0 && name == n && fp.pos == at && size == k && next == 48 * i + 48
    {
      hide FromWord32, Guess, UpToNul;
      name, size, next := [], 0, 0;
      var filename := fp.Read(32);
      if |filename| != 32 {
        return -2, name, size, next;
      }
      assert filename == fp.data[48 * i..48 * i + 32];
      if filename[0] == 0 {
        return 1, name, size, next;
      }
      var b := fp.Read(4);
      if |b| != 4 {
        return -3, name, size, next;
      }
      rv := Settle(b, |fp.data|);
      if rv != 0 {
        return;
      }
      var offset := FromWord32(endianness, b);
      b := fp.Read(4);
      if |b| != 4 {
        return -4, name, size, next;
      }
      name, size := UpToNul(filename), FromWord32(endianness, b);
      next := fp.pos + 8;
      fp.Seek(offset * 2048);
    }

    /** A whole scan.  For a copying command, which has counted the files before, the byte order is
        known and `out` starts empty, at the header length `h`. */
    method ScanGsl(img: Img, c: Callback, out: MemFile, h: nat) returns (rv: int, ghost fs: seq<Member>)
      requires !c.Count? ==> Resolve(endianness, img) == Ok(endianness) && out.data == []
      requires c.CopyAll? ==> out.pos == h
      modifies this, out
      ensures !c.Count? ==> endianness == old(endianness)
      ensures Edit(old(endianness), img, c).Err? ==> rv == Edit(old(endianness), img, c).code < 0
      ensures Edit(old(endianness), img, c).Ok? ==>
        && rv >= 0 && Edit(old(endianness), img, c) == Ok(Edited(rv, fs))
        && Resolve(old(endianness), img) == Ok(endianness)
        && (c.CopyAll? ==> Writing(endianness, h, c, out, 0, 0, rv, fs))
        && (c.CopyUpdate? || c.CopyFiltered? ==> out.data == Written(endianness, h, fs))
    {
      hide PutAll, End, Small, Peek, Piece, Resolve;
      fs := [];
      var fp := new MemFile(img);
      var f, w, i := 0, h, 0;
      NothingYet(endianness, h);
      while true
        invariant 0 <= i && fp != out && fresh(fp) && fp.data == img && fp.pos == 48 * i
        invariant i == 0 ==> endianness == old(endianness) && fs == []
        invariant i > 0 ==> Resolve(old(endianness), img) == Ok(endianness) && endianness != Auto
        invariant i > 0 ==> Edit(old(endianness), img, c) == EditFrom(endianness, img, c, i, fs)
        invariant !c.Count? ==> endianness == old(endianness)
        invariant Writing(endianness, h, c, out, f, w, i, fs)
        decreases |img| - 48 * i
      {
        ghost var e := endianness;
        var name, size, next;
        rv, name, size, next := ReadEntry(fp, i);
        KnownOrder(e, img);
        if rv < 0 {
          return;
        }
        if rv == 1 {
          rv := i;
          return;
        }
        ItemThere(endianness, img, i);
        rv, f, w, fs := Call(endianness, c, fp, i, name, size, out, f, w, h, fs);
        if rv != 0 {
          rv := -7;
          return;
        }
        fp.Seek(next);
        i := i + 1;
      }
    }

    // -------------------------------------------------------------- the commands

    method Create(files: seq<Input>) returns (rv: int, img: Img)
      modifies this
      ensures endianness == if old(endianness) == Auto then Big else old(endianness)
      ensures rv == if AllUsable(files) then 0 else -6
      ensures rv == 0 ==> img == Written(endianness, HdrLen(|files|), Members(files))
      ensures rv == 0 && Roomy(|files|) && Fits(HdrLen(|files|), Members(files)) ==> Scan(endianness, img) == Ok(Members(files))
    {
      hide PutAll, Fits, Scan, Members;
      img := [];
      if endianness == Auto {
        endianness := Big;
      }
      var h := HdrLen(|files|);
      var out := new MemFile([]);
      var f, w;
      rv, f, w := AddFiles(endianness, out, 0, 0, h, files);
      if rv != 0 {
        return -6, img;
      }
      img := out.data;
      if Roomy(|files|) && Fits(h, Members(files)) {
        RoomyScans(endianness, |files|, Members(files));
      }
    }

    /** Adding files.  An archive that scans keeps its files, in order, in front of the new ones; one that
        can be counted but not copied is an error of its own. */
    method Add(img: Img, files: seq<Input>) returns (rv: int, r: Img)
      modifies this
      ensures Edit(old(endianness), img, Count).Err? ==> rv == -11
      ensures Edit(old(endianness), img, Count).Ok? && Scan(old(endianness), img).Err? ==> rv == -5
      ensures Scan(old(endianness), img).Ok? ==>
        var was := Scan(old(endianness), img).value;
        var n := |was| + |files|;
        && rv == (if AllUsable(files) then 0 else -10)
        && Ok(endianness) == Resolve(old(endianness), img)
        && (rv == 0 && Small(HdrLen(n), was) ==>
            Holds(endianness, HdrLen(n), was + Members(files), r))
    {
      hide PutAll, Members, Scan, Edit, End, Small, Resolve, Holds, HdrLen;
      r := [];
      ghost var e, was := endianness, Scan(endianness, img);
      var out := new MemFile([]);
      ghost var fs;
      if Scan(e, img).Ok? {
        CountsAll(e, img);
      }
      rv, fs := ScanGsl(img, Count, out, 0);
      if rv < 0 {
        return -11, r;
      }
      var entries := rv;
      var h := HdrLen(|files| + entries);
      out := new MemFile([]);
      out.Seek(h);
      SameOrder(e, endianness, img);
      CopiesScan(endianness, img);
      if was.Ok? {
        CountsAll(endianness, img);
      }
      rv, fs := ScanGsl(img, CopyAll, out, h);
      if rv < 0 {
        return -5, r;
      }
      var wpos := out.pos;
      var f, w;
      out.Seek(48 * entries);
      rv, f, w := AddFiles(endianness, out, entries, 48 * entries, wpos, files);
      if rv != 0 {
        return -10, r;
      }
      r := out.data;
      if was.Ok? && Small(h, fs) {
        WrittenMore(endianness, h, fs, Members(files));
        ScannedNames(e, img);
        WrittenHolds(endianness, h, fs + Members(files));
      }
    }

    /** What a rewriting command leaves: an error if its callback fails, and otherwise the files that the
        callback has written, behind the table space of the old count. */
    ghost predicate RewrittenAs(e: Order, img: Img, c: Callback, rv: int, r: Img)
      reads this
    {
      match Edit(e, img, Count)
      case Err(_) => rv == -11
      case Ok(counted) =>
        Resolve(e, img) == Ok(endianness) &&
        match Edit(e, img, c)
        case Err(_) => rv == -7
        case Ok(edited) => rv == 0 && r == Written(endianness, HdrLen(counted.count), edited.files)
    }

    /** Replacing the files with one name by one file, which brings its own name. */
    method Update(img: Img, fn: Img, input: Input) returns (rv: int, r: Img)
      modifies this
      ensures RewrittenAs(old(endianness), img, CopyUpdate(fn, input), rv, r)
      ensures Scan(old(endianness), img).Ok? ==>
        var was := Scan(old(endianness), img).value;
        && rv == (if Applies(CopyUpdate(fn, input), was) then 0 else -7)
        && Ok(endianness) == Resolve(old(endianness), img)
        && (rv == 0 ==> Holds(endianness, HdrLen(|was|), Mapped(CopyUpdate(fn, input), was), r))
    {
      rv, r := Rewrite(img, CopyUpdate(fn, input));
    }

    /** Leaving out the files with the listed names, in an archive that keeps its table space. */
    method Delete(img: Img, names: seq<Img>) returns (rv: int, r: Img)
      modifies this
      ensures RewrittenAs(old(endianness), img, CopyFiltered(names), rv, r)
      ensures Scan(old(endianness), img).Ok? ==>
        var was := Scan(old(endianness), img).value;
        && rv == 0 && Ok(endianness) == Resolve(old(endianness), img)
        && Holds(endianness, HdrLen(|was|), Mapped(CopyFiltered(names), was), r)
    {
      rv, r := Rewrite(img, CopyFiltered(names));
    }

    method Rewrite(img: Img, c: Callback) returns (rv: int, r: Img)
      requires c.CopyUpdate? || c.CopyFiltered?
      modifies this
      ensures RewrittenAs(old(endianness), img, c, rv, r)
      ensures Scan(old(endianness), img).Ok? ==>
        var was := Scan(old(endianness), img).value;
        && rv == (if Applies(c, was) then 0 else -7)
        && Ok(endianness) == Resolve(old(endianness), img)
        && (rv == 0 ==> Holds(endianness, HdrLen(|was|), Mapped(c, was), r))
    {
      hide PutAll, Scan, Edit, End, Resolve, Applies, Mapped, Holds, HdrLen, ValidNames;
      r := [];
      ghost var e := endianness;
      var out := new MemFile([]);
      ghost var fs;
      if Scan(e, img).Ok? {
        CountsAll(e, img);
      }
      rv, fs := ScanGsl(img, Count, out, 0);
      if rv < 0 {
        return -11, r;
      }
      var h := HdrLen(rv);
      out := new MemFile([]);
      SameOrder(e, endianness, img);
      if Scan(e, img).Ok? {
        EditOutcome(endianness, img, c, Scan(e, img).value);
      }
      rv, fs := ScanGsl(img, c, out, h);
      if rv < 0 {
        return -7, r;
      }
      r := out.data;
      rv := 0;
      if Scan(e, img).Ok? {
        ScannedNames(e, img);
        MappedNames(c, Scan(e, img).value);
        WrittenHolds(endianness, h, fs);
      }
    }
  }

  // ---------------------------------------------------------------- what the commands rely on

  /** The tables that the header length of `n` files leaves room behind. */
  predicate Roomy(n: nat) {
    48 * n + 2048 < WORD && 48 * n % 4096 >= 2048
  }

  lemma RoomyScans(o: Order, n: nat, files: seq<Member>)
    requires o != Auto && Roomy(n) && |files| == n && ValidNames(files) && Fits(HdrLen(n), files)
    ensures Scan(o, Written(o, HdrLen(n), files)) == Ok(files)
  {
    hide PutAll, ScanFrom, Fits;
    HeaderHasRoom(n);
    WrittenScans(o, HdrLen(n), files);
  }

  /** The second scan sees the byte order that the first one has settled. */
  lemma SameOrder(o: Order, o': Order, img: Img)
    requires Resolve(o, img) == Ok(o')
    ensures Resolve(o', img) == Ok(o') && Scan(o', img) == Scan(o, img)
    ensures forall c :: Edit(o', img, c) == Edit(o, img, c)
  {
    hide ScanFrom, EditFrom;
  }

  lemma CountsAll(o: Order, img: Img)
    requires Scan(o, img).Ok?
    ensures Edit(o, img, Count).Ok? && Edit(o, img, Count).value.count == |Scan(o, img).value|
    ensures Edit(o, img, CopyAll) == Ok(Edited(|Scan(o, img).value|, Scan(o, img).value))
  {
    hide Scan, Edit;
    var files := Scan(o, img).value;
    EditMaps(o, img, Count, files);
    EditMaps(o, img, CopyAll, files);
    MappedAll(files);
  }

  /** Copying succeeds exactly on the archives that scan. */
  lemma CopiesScan(o: Order, img: Img)
    ensures Edit(o, img, CopyAll).Ok? <==> Scan(o, img).Ok?
  {
    hide EditFrom, ScanFrom, Resolve;
    if Resolve(o, img).Ok? {
      CopiesFrom(Resolve(o, img).value, img, []);
    }
  }

  lemma {:induction false} CopiesFrom(o: Order, img: Img, done: seq<Member>)
    ensures EditFrom(o, img, CopyAll, |done|, done).Ok? <==> ScanFrom(o, img, done).Ok?
    decreases |img| - 48 * |done|
  {
    hide Range;
    if Look(o, img, |done|).Got? {
      ItemThere(o, img, |done|);
      CopiesFrom(o, img, done + [Look(o, img, |done|).m]);
    }
  }

  lemma EditOutcome(o: Order, img: Img, c: Callback, files: seq<Member>)
    requires Scan(o, img) == Ok(files)
    ensures Applies(c, files) ==> Edit(o, img, c) == Ok(Edited(|files|, Mapped(c, files)))
    ensures !Applies(c, files) ==> Edit(o, img, c).Err?
  {
    hide Scan, Edit;
    if Applies(c, files) {
      EditMaps(o, img, c, files);
    } else {
      NotApplied(o, img, c, files);
    }
  }

  lemma NotApplied(o: Order, img: Img, c: Callback, files: seq<Member>)
    requires Scan(o, img) == Ok(files) && !Applies(c, files)
    ensures Edit(o, img, c) == Err(-7)
  {
    hide ScanFrom, EditFrom, Look;
    var o' := Resolve(o, img).value;
    ScanFinds(o', img, files);
    var m :| m in files && m.name == c.fn;
    var j :| 0 <= j < |files| && files[j] == m;
    EditFails(o', img, c, files, 0, j, []);
  }

  lemma {:induction false} EditFails(o: Order, img: Img, c: Callback, files: seq<Member>, k: nat, j: nat, done: seq<Member>)
    requires k <= j < |files| && c.CopyUpdate? && files[j].name == c.fn && !Usable(c.input)
    requires forall i :: k <= i < |files| ==> Look(o, img, i) == Got(files[i])
    ensures EditFrom(o, img, c, k, done) == Err(-7)
    decreases j - k
  {
    hide Peek, Range;
    assert Look(o, img, k) == Got(files[k]);
    if files[k].name != c.fn {
      EditFails(o, img, c, files, k + 1, j, done + [files[k]]);
    }
  }

  lemma NothingYet(o: Order, h: nat)
    ensures Written(o, h, []) == [] && End(h, []) == h
  {
  }

  lemma KnownOrder(o: Order, img: Img)
    ensures o != Auto ==> Resolve(o, img) == Ok(o)
  {
  }

  lemma ItemThere(o: Order, img: Img, i: nat)
    requires Peek(o, img, i).Item?
    ensures |img| >= 48 * i + 40
  {
  }

  // ---------------------------------------------------------------- the laws of the commands

  /** Every command that leaves `h` of table space loses some list of `n` files, or none, by the same
      rule; `TableNeedsRoom` states it for any `h`, this for the space that the tool keeps. */
  lemma CreateNeedsRoom(o: Order, n: nat)
    requires o != Auto && 48 * n + 2048 < WORD
    ensures (forall files: seq<Member> :: |files| == n && ValidNames(files) && Fits(HdrLen(n), files)
              ==> ScansBack(o, HdrLen(n), files)) <==> Roomy(n)
  {
    hide ScansBack, Fits;
    HeaderHasRoom(n);
    TableNeedsRoom(o, HdrLen(n), n);
  }

  /** After a delete the table has room when the old one had, and often when it had not. */
  lemma DeleteNeedsRoom(o: Order, was: nat, n: nat)
    requires o != Auto && 48 * was + 2048 < WORD && n <= was
    ensures (forall files: seq<Member> :: |files| == n && ValidNames(files) && Fits(HdrLen(was), files)
              ==> ScansBack(o, HdrLen(was), files)) <==> n > 0 && 48 * n < HdrLen(was)
  {
    hide ScansBack, Fits;
    TableNeedsRoom(o, HdrLen(was), n);
  }

  /** What the edits are on lists: a replacement keeps the length and all other files. */
  lemma {:induction false} UpdatedList(fn: Img, input: Input, files: seq<Member>)
    requires Applies(CopyUpdate(fn, input), files)
    ensures var r := Mapped(CopyUpdate(fn, input), files);
      && |r| == |files|
      && forall i :: 0 <= i < |files| ==> r[i] == if files[i].name == fn then Stored(input) else files[i]
    decreases |files|
  {
    hide Stored, Usable;
    if files != [] {
      var n := |files| - 1;
      assert files[n] in files;
      UpdatedList(fn, input, files[..n]);
    }
  }

  /** How many of the first `n` files have none of the names. */
  function Rank(names: seq<Img>, files: seq<Member>, n: nat): (r: nat)
    requires n <= |files|
    ensures r <= n
  {
    if n == 0 then 0 else Rank(names, files, n - 1) + if files[n - 1].name in names then 0 else 1
  }

  lemma {:induction false} RankGrows(names: seq<Img>, files: seq<Member>, i: nat, n: nat)
    requires i < n <= |files| && files[i].name !in names
    ensures Rank(names, files, i) < Rank(names, files, n)
    decreases n
  {
    if i < n - 1 {
      RankGrows(names, files, i, n - 1);
    }
  }

  lemma DeletesOne(names: seq<Img>, m: Member)
    ensures PieceOf(CopyFiltered(names), m) == if m.name in names then [] else [m]
  {
  }

  /** A delete leaves exactly the files with none of the names, each where the files that stay before
      it say. */
  lemma {:induction false} DeletedAt(names: seq<Img>, files: seq<Member>, n: nat, i: nat)
    requires i < n <= |files|
    ensures var r := Mapped(CopyFiltered(names), files[..n]);
      && |r| == Rank(names, files, n)
      && (files[i].name !in names ==> Rank(names, files, i) < |r| && r[Rank(names, files, i)] == files[i])
    decreases n
  {
    hide PieceOf;
    MappedOne(CopyFiltered(names), files, n - 1);
    DeletesOne(names, files[n - 1]);
    hide Mapped;
    if n == 1 {
      MappedNone(CopyFiltered(names), files);
    } else {
      DeletedAt(names, files, n - 1, if i < n - 1 then i else n - 2);
    }
    if i < n - 1 && files[i].name !in names {
      RankGrows(names, files, i, n - 1);
    }
  }

  lemma MappedNone(c: Callback, files: seq<Member>)
    ensures Mapped(c, files[..0]) == []
  {
  }
}
