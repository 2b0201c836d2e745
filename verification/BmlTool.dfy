/** The update command for BML archives, and what it does to the list of files. */
module BmlTool {
  import opened Bytes
  import opened Image
  import opened BmlFormat
  import PrsFormat
  import PrsEncoder
  import PrsCompressor

  // ---------------------------------------------------------------- the new file

  /** Which file to replace, which of its parts, and by what; nothing if the new file is unusable. */
  datatype Update = Update(fn: Img, isPvm: bool, comp: Option<Img>, usize: nat)

  predicate ValidUpdate(u: Update) {
    u.comp.Some? ==> 0 < |u.comp.value| < WORD && u.usize < WORD
  }

  /** A file that can be held in memory and compressed. */
  type Source = f: Img | |f| < 0x4000_0000 witness []

  /** The new contents: a nonempty file, compressed. */
  function Packed(file: Option<Source>): Option<Img> {
    if file.None? || file.value == [] then None else Some(PrsEncoder.Compressed(file.value))
  }

  lemma PackedIs(file: Source)
    requires file != []
    ensures Packed(Some(file)) == Some(PrsEncoder.Compressed(file))
  {
  }

  method ReadAndCmp(file: Option<Source>, past: byte, base: nat) returns (comp: Option<Img>)
    ensures comp == Packed(file)
    ensures comp.Some? ==> 0 < |comp.value| < WORD
  {
    if file.None? {
      return None;
    }
    var rv, dst := PrsCompressor.PrsCompress(file.value, past, base);
    if rv < 0 {
      return None;
    }
    comp := Some(dst);
  }

  /** The table entry with the sizes of the new part. */
  function NewEntry(e: Img, isPvm: bool, cs: nat, us: nat): (r: Img)
    requires |e| == 64
    ensures |r| == 64
  {
    if isPvm then e[..44] + Le32(cs) + Le32(us) + e[52..]
    else e[..32] + Le32(cs) + e[36..40] + Le32(us) + e[44..]
  }

  /** The sizes before compression. */
  function USize(e: Img): nat
    requires |e| == 64
  {
    FromLe32(e[40..44])
  }

  function PvmUSize(e: Img): nat
    requires |e| == 64
  {
    FromLe32(e[48..52])
  }

  /** The fields in front of a change. */
  lemma SlicesBefore(e: Img, k: nat, tail: Img, r: Img)
    requires |e| == 64 && k <= 64 && r == e[..k] + tail && |r| == 64
    ensures r[..k] == e[..k]
    ensures forall i, j :: 0 <= i <= j <= k ==> r[i..j] == e[i..j]
  {
    forall i, j | 0 <= i <= j <= k
      ensures r[i..j] == e[i..j]
    {
      assert r[i..j] == r[..k][i..j] && e[i..j] == e[..k][i..j];
    }
  }

  /** Both sizes of the new part are those that are given, and everything else stays. */
  lemma NewEntryIs(e: Img, isPvm: bool, cs: nat, us: nat)
    requires |e| == 64 && cs < WORD && us < WORD
    ensures var r := NewEntry(e, isPvm, cs, us);
      && CSize(r) == (if isPvm then CSize(e) else cs) && USize(r) == (if isPvm then USize(e) else us)
      && PvmSize(r) == (if isPvm then cs else PvmSize(e)) && PvmUSize(r) == (if isPvm then us else PvmUSize(e))
      && r[..32] == e[..32] && r[36..40] == e[36..40] && r[52..] == e[52..]
  {
    hide Le32, FromLe32;
    Le32RoundTrip(cs);
    Le32RoundTrip(us);
    var r := NewEntry(e, isPvm, cs, us);
    if isPvm {
      SlicesBefore(e, 44, Le32(cs) + Le32(us) + e[52..], r);
      assert r[44..48] == Le32(cs) && r[48..52] == Le32(us) && r[52..] == e[52..];
    } else {
      SlicesBefore(e, 32, Le32(cs) + e[36..40] + Le32(us) + e[44..], r);
      assert r[32..36] == Le32(cs) && r[36..40] == e[36..40] && r[40..44] == Le32(us) && r[44..] == e[44..];
      assert r[44..48] == r[44..][..4] && r[48..52] == r[44..][4..8] && r[52..] == r[44..][8..];
      assert e[44..48] == e[44..][..4] && e[48..52] == e[44..][4..8] && e[52..] == e[44..][8..];
    }
  }

  // ---------------------------------------------------------------- the update on images and on lists

  function Replaced(img: Img, u: Update, e: Img, off: nat): Result<Member>
    requires |e| == 64
  {
    if u.comp.None? then Err(-10)
    else
      var e' := NewEntry(e, u.isPvm, |u.comp.value|, u.usize);
      if u.isPvm then
        match Part(img, off, CSize(e), -18)
        case Err(code) => Err(code)
        case Ok(d) => Ok(Member(e', d, u.comp.value))
      else
        match Part(img, PvmAt(off, e), PvmSize(e), -18)
        case Err(code) => Err(code)
        case Ok(p) => Ok(Member(e', u.comp.value, p))
  }

  /** What the callback writes for one entry. */
  function Step(img: Img, u: Update, e: Img, off: nat): Result<Member>
    requires |e| == 64
  {
    if UpToNul(e) == u.fn then Replaced(img, u, e, off) else Found(img, e, off)
  }

  function EditUpTo(img: Img, h: nat, u: Update, n: nat): Result<Scanned> {
    if n == 0 then Ok(Scanned([], h))
    else
      match EditUpTo(img, h, u, n - 1)
      case Err(code) => Err(code)
      case Ok(s) =>
        if |img| < 64 * n + 64 then Err(-2)
        else
          match Step(img, u, img[64 * n..64 * n + 64], s.off)
          case Err(code) => Err(code)
          case Ok(m) => Ok(Scanned(s.ms + [m], NextAt(s.off, img[64 * n..64 * n + 64])))
  }

  function Edit(img: Img, u: Update): Result<seq<Member>> {
    match Entries(img)
    case None => Err(-1)
    case Some(n) =>
      match EditUpTo(img, HdrLen(n) % WORD, u, n)
      case Err(code) => Err(code)
      case Ok(s) => Ok(s.ms)
  }

  /** One file of the list: only the part with the name changes, and its sizes in the entry. */
  function Replace(u: Update, m: Member): Member
    requires |m.entry| == 64
  {
    if UpToNul(m.entry) != u.fn || u.comp.None? then m
    else
      var e := NewEntry(m.entry, u.isPvm, |u.comp.value|, u.usize);
      if u.isPvm then Member(e, m.data, u.comp.value) else Member(e, u.comp.value, m.pvm)
  }

  function Mapped(u: Update, ms: seq<Member>): (r: seq<Member>)
    requires forall i :: 0 <= i < |ms| ==> |ms[i].entry| == 64
    ensures |r| == |ms|
  {
    seq(|ms|, i requires 0 <= i < |ms| => Replace(u, ms[i]))
  }

  predicate Applies(u: Update, ms: seq<Member>) {
    (exists m :: m in ms && UpToNul(m.entry) == u.fn) ==> u.comp.Some?
  }

  lemma FoundParts(img: Img, e: Img, off: nat)
    requires |e| == 64 && Found(img, e, off).Ok?
    ensures var m := Found(img, e, off).value;
      && m.entry == e && ValidMember(m)
      && Part(img, off, CSize(e), -18) == Ok(m.data) && Part(img, PvmAt(off, e), PvmSize(e), -18) == Ok(m.pvm)
  {
    hide CSize, PvmSize, PvmAt, Range;
  }

  lemma {:induction false} ScanIsValid(img: Img, h: nat, n: nat)
    requires ScanUpTo(img, h, n).Ok?
    ensures ValidMembers(ScanUpTo(img, h, n).value.ms) && |ScanUpTo(img, h, n).value.ms| == n
    decreases n
  {
    hide Found, NextAt, ValidMember;
    if n > 0 {
      ScanIsValid(img, h, n - 1);
      FoundParts(img, img[64 * n..64 * n + 64], ScanUpTo(img, h, n - 1).value.off);
    }
  }

  lemma StepReplaces(img: Img, u: Update, e: Img, off: nat)
    requires |e| == 64 && Found(img, e, off).Ok?
    ensures var m := Found(img, e, off).value;
      && |m.entry| == 64
      && Step(img, u, e, off) == if UpToNul(m.entry) == u.fn && u.comp.None? then Err(-10) else Ok(Replace(u, m))
  {
    hide CSize, PvmSize, PvmAt, Part, NewEntry, UpToNul, Found;
    FoundParts(img, e, off);
  }

  lemma EntriesWhole(ms: seq<Member>)
    requires ValidMembers(ms)
    ensures forall i :: 0 <= i < |ms| ==> |ms[i].entry| == 64
  {
  }

  lemma {:induction false} EditUpToMaps(img: Img, h: nat, u: Update, n: nat)
    requires ScanUpTo(img, h, n).Ok? && Applies(u, ScanUpTo(img, h, n).value.ms)
    ensures var s := ScanUpTo(img, h, n).value;
      && (forall i :: 0 <= i < |s.ms| ==> |s.ms[i].entry| == 64)
      && EditUpTo(img, h, u, n) == Ok(Scanned(Mapped(u, s.ms), s.off))
    decreases n
  {
    hide Found, Step, NextAt, Replace, UpToNul;
    ScanIsValid(img, h, n);
    EntriesWhole(ScanUpTo(img, h, n).value.ms);
    if n > 0 {
      var before, all := ScanUpTo(img, h, n - 1).value, ScanUpTo(img, h, n).value;
      assert forall m :: m in before.ms ==> m in all.ms;
      EditUpToMaps(img, h, u, n - 1);
      StepReplaces(img, u, img[64 * n..64 * n + 64], before.off);
      assert all.ms[n - 1] in all.ms;
      assert Mapped(u, all.ms) == Mapped(u, before.ms) + [Replace(u, all.ms[n - 1])];
    }
  }

  /** On an archive that scans, the update does to the image what it does to the list. */
  lemma EditMaps(img: Img, u: Update)
    requires Scan(img).Ok? && Applies(u, Scan(img).value)
    ensures ValidMembers(Scan(img).value) && (forall i :: 0 <= i < |Scan(img).value| ==> |Scan(img).value[i].entry| == 64)
    ensures Edit(img, u) == Ok(Mapped(u, Scan(img).value))
  {
    hide ScanUpTo, EditUpTo, ValidMembers, HdrLen;
    var n := Entries(img).value;
    EditUpToMaps(img, HdrLen(n) % WORD, u, n);
    ScanIsValid(img, HdrLen(n) % WORD, n);
  }

  lemma MappedValid(u: Update, ms: seq<Member>)
    requires ValidMembers(ms) && ValidUpdate(u) && forall i :: 0 <= i < |ms| ==> |ms[i].entry| == 64
    ensures ValidMembers(Mapped(u, ms))
  {
    hide CSize, PvmSize, NewEntry, UpToNul;
    forall i | 0 <= i < |ms|
      ensures ValidMember(Mapped(u, ms)[i])
    {
      assert ValidMember(ms[i]);
      if u.comp.Some? {
        NewEntryIs(ms[i].entry, u.isPvm, |u.comp.value|, u.usize);
      }
    }
  }

  // ---------------------------------------------------------------- writing

  /** Pads to the next multiple of 32 by writing its last byte. */
  method PadFile32(f: MemFile)
    modifies f
    ensures f.pos == Pad32(old(f.pos))
    ensures f.data == Overwrite(old(f.data), Pad32(old(f.pos)) - 1, [0])
  {
    var to := Pad32(f.pos);
    f.Seek(to - 1);
    f.Write([0]);
  }

  /** Copies one part out of the old archive, with the padding behind it. */
  method CopyPart(out: MemFile, fp: MemFile, at: nat, size: nat) returns (ok: bool)
    requires out != fp
    modifies out, fp
    ensures fp.data == old(fp.data)
    ensures ok <==> Range(fp.data, at, size).Some?
    ensures ok ==>
      && out.data == PutPart(old(out.data), old(out.pos), Range(fp.data, at, size).value)
      && out.pos == Pad32(old(out.pos) + size)
  {
    hide Overwrite, Range;
    fp.Seek(at);
    var rv := CopyFile(out, fp, size);
    ok := rv == 0;
    if ok {
      PadFile32(out);
    }
  }

  method WritePart(out: MemFile, part: Img)
    modifies out
    ensures out.data == PutPart(old(out.data), old(out.pos), part) && out.pos == Pad32(old(out.pos) + |part|)
  {
    hide Overwrite;
    out.Write(part);
    PadFile32(out);
  }

  method WriteEntry(out: MemFile, fpos: nat, e: Img, wpos: nat)
    modifies out
    ensures out.data == Overwrite(old(out.data), fpos, e) && out.pos == wpos
  {
    out.Seek(fpos);
    out.Write(e);
    out.Seek(wpos);
  }

  /** The callback for a file that stays. */
  method CopyMember(fp: MemFile, e: Img, off: nat, poff: nat, out: MemFile, i: nat, wpos: nat) returns (rv: int)
    requires fp != out && |e| == 64 && poff == PvmAt(off, e)
    modifies fp, out
    ensures fp.data == old(fp.data)
    ensures rv == match Found(fp.data, e, off) { case Err(code) => code case Ok(_) => 0 }
    ensures Found(fp.data, e, off).Ok? ==>
      var m := Found(fp.data, e, off).value;
      out.data == Put(old(out.data), i, wpos, m) && out.pos == AfterPvm(Pad32(wpos + |m.data|), m)
  {
    hide Overwrite, Range, CSize, PvmSize, PvmAt, PutPart, Pad32;
    WriteEntry(out, 64 * i + 64, e, wpos);
    var ok := CopyPart(out, fp, off, CSize(e));
    if !ok {
      return -5;
    }
    if PvmSize(e) != 0 {
      ok := CopyPart(out, fp, poff, PvmSize(e));
      if !ok {
        return -8;
      }
    } else {
      NoRange(fp.data, poff);
    }
    rv := 0;
  }

  lemma NoRange(img: Img, at: nat)
    ensures Range(img, at, 0) == Some([])
  {
  }

  /** The callback for the file to replace. */
  method ReplaceMember(fp: MemFile, u: Update, e: Img, off: nat, poff: nat, out: MemFile, i: nat, wpos: nat) returns (rv: int)
    requires fp != out && |e| == 64 && poff == PvmAt(off, e) && ValidUpdate(u)
    modifies fp, out
    ensures fp.data == old(fp.data)
    ensures rv == match Replaced(fp.data, u, e, off) { case Err(code) => code case Ok(_) => 0 }
    ensures Replaced(fp.data, u, e, off).Ok? ==>
      var m := Replaced(fp.data, u, e, off).value;
      out.data == Put(old(out.data), i, wpos, m) && out.pos == AfterPvm(Pad32(wpos + |m.data|), m)
  {
    hide Overwrite, Range, CSize, PvmSize, PvmAt, PutPart, Pad32, NewEntry;
    if u.comp.None? {
      return -10;
    }
    var buf := u.comp.value;
    WriteEntry(out, 64 * i + 64, NewEntry(e, u.isPvm, |buf|, u.usize), wpos);
    var ok := true;
    if !u.isPvm {
      WritePart(out, buf);
      if PvmSize(e) != 0 {
        ok := CopyPart(out, fp, poff, PvmSize(e));
      } else {
        NoRange(fp.data, poff);
      }
    } else {
      ok := CopyPart(out, fp, off, CSize(e));
      if ok {
        WritePart(out, buf);
      }
    }
    rv := if ok then 0 else -18;
  }

  // ---------------------------------------------------------------- the scan

  method OpenBml(img: Img) returns (fp: MemFile, entries: Option<nat>)
    ensures fresh(fp) && fp.data == img && entries == Entries(img)
    ensures entries.Some? ==> fp.pos == 64
  {
    fp := new MemFile(img);
    entries := None;
    var b := fp.Read(12);
    if |b| == 12 {
      assert b == img[0..12];
      assert b[..4] == img[..4] && b[8..12] == img[8..12] && b[4..8] == img[4..8];
      if b[..4] == [0, 0, 0, 0] && b[8..12] == MAGIC {
        entries := Some(FromLe32(b[4..8]));
        fp.Seek(64);
      }
    }
  }

  lemma PutOne(img: Img, h: nat, ms: seq<Member>, m: Member)
    ensures PutAll(img, h, ms + [m]) == Put(PutAll(img, h, ms), |ms|, W(h, ms), m)
    ensures W(h, ms + [m]) == AfterPvm(Pad32(W(h, ms) + |m.data|), m)
  {
    hide Put;
    assert (ms + [m])[..|ms|] == ms;
  }

  lemma {:induction false} EditFails(img: Img, h: nat, u: Update, i: nat, n: nat, code: int)
    requires i < n && EditUpTo(img, h, u, i + 1) == Err(code)
    ensures EditUpTo(img, h, u, n) == Err(code)
    decreases n
  {
    hide Step;
    if i + 1 < n {
      EditFails(img, h, u, i, n - 1, code);
    }
  }

  lemma EditStep(img: Img, h: nat, u: Update, i: nat, s: Scanned)
    requires EditUpTo(img, h, u, i) == Ok(s)
    ensures |img| < 64 * i + 128 ==> EditUpTo(img, h, u, i + 1) == Err(-2)
    ensures |img| >= 64 * i + 128 ==>
      var e := img[64 * i + 64..64 * i + 128];
      EditUpTo(img, h, u, i + 1) ==
        match Step(img, u, e, s.off) { case Err(code) => Err(code) case Ok(m) => Ok(Scanned(s.ms + [m], NextAt(s.off, e))) }
  {
    hide Step, NextAt;
    assert 64 * (i + 1) == 64 * i + 64;
  }

  /** One turn of the scan: reads entry `i`, derives the positions, and calls the callback. */
  method ScanEntry(fp: MemFile, u: Update, i: nat, off: nat, out: MemFile, wpos: nat, ghost h: nat, ghost ms: seq<Member>)
    returns (rv: int, eoffset: nat, wpos': nat, ghost m: Member)
    requires fp != out && fp.pos == 64 * i + 64 && ValidUpdate(u) && |ms| == i && wpos == W(h, ms)
    modifies fp, out
    ensures fp.data == old(fp.data) && rv <= 0
    ensures |fp.data| < 64 * i + 128 ==> rv == -2
    ensures |fp.data| >= 64 * i + 128 ==>
      var e := fp.data[64 * i + 64..64 * i + 128];
      match Step(fp.data, u, e, off)
      case Err(code) => rv == code < 0
      case Ok(k) =>
        && rv == 0 && m == k && eoffset == NextAt(off, e) && fp.pos == 64 * i + 128
        && out.data == Put(old(out.data), i, wpos, m) && wpos' == W(h, ms + [m])
  {
    hide Put, CSize, PvmSize, UpToNul, Found, Replaced, W, Up32;
    eoffset, wpos', m := 0, wpos, Member([], [], []);
    var e := fp.Read(64);
    if |e| != 64 {
      return -2, eoffset, wpos', m;
    }
    assert e == fp.data[64 * i + 64..64 * i + 128];
    var poffset := (off + CSize(e)) % WORD;
    poffset := Up32(poffset) % WORD;
    eoffset := poffset;
    var next := fp.pos;
    if PvmSize(e) != 0 {
      eoffset := (poffset + PvmSize(e)) % WORD;
      eoffset := Up32(eoffset) % WORD;
    }
    Codes(fp.data, u, e, off);
    if UpToNul(e) == u.fn {
      rv := ReplaceMember(fp, u, e, off, poffset, out, i, wpos);
    } else {
      rv := CopyMember(fp, e, off, poffset, out, i, wpos);
    }
    if rv != 0 {
      return;
    }
    m := Step(fp.data, u, e, off).value;
    PutOne([], h, ms, m);
    wpos' := out.pos;
    fp.Seek(next);
  }

  lemma Codes(img: Img, u: Update, e: Img, off: nat)
    requires |e| == 64
    ensures Found(img, e, off).Err? ==> Found(img, e, off).code < 0
    ensures Replaced(img, u, e, off).Err? ==> Replaced(img, u, e, off).code < 0
  {
    hide CSize, PvmSize, PvmAt, NewEntry;
  }

  method ScanBml(img: Img, u: Update, out: MemFile, n: nat) returns (rv: int)
    requires Entries(img) == Some(n) && ValidUpdate(u) && HdrLen(n) < WORD && out.data == Header(n)
    modifies out
    ensures rv <= 0 && (rv == 0 <==> Edit(img, u).Ok?)
    ensures rv == 0 ==> |Edit(img, u).value| == n && out.data == Written(Edit(img, u).value)
  {
    hide PutAll, Step, HdrLen, W, NextAt, EditUpTo, Header;
    var fp, entries := OpenBml(img);
    var h := HdrLen(n);
    NoneEdited(img, h, u);
    NoWrap(h);
    var off, w, i := h, h, 0;
    ghost var ms := [];
    NothingYet(Header(n), h);
    while i < n
      invariant 0 <= i <= n && fp != out && fresh(fp) && fp.data == img && fp.pos == 64 * i + 64
      invariant |ms| == i && EditUpTo(img, h, u, i) == Ok(Scanned(ms, off))
      invariant w == W(h, ms) && out.data == PutAll(Header(n), h, ms)
    {
      ghost var m;
      EditStep(img, h, u, i, Scanned(ms, off));
      rv, off, w, m := ScanEntry(fp, u, i, off, out, w, h, ms);
      if rv != 0 {
        EditFails(img, h, u, i, n, rv);
        return;
      }
      PutOne(Header(n), h, ms, m);
      ms := ms + [m];
      i := i + 1;
    }
    rv := 0;
  }

  lemma NoneEdited(img: Img, h: nat, u: Update)
    ensures EditUpTo(img, h, u, 0) == Ok(Scanned([], h))
  {
  }

  lemma NothingYet(img: Img, h: nat)
    ensures PutAll(img, h, []) == img && W(h, []) == h
  {
  }

  // ---------------------------------------------------------------- the command

  /** Replaces one part of the files with one name.  An archive that scans, and whose lengths stay
      sound, scans afterwards as the list with just that part replaced. */
  method UpdateBml(img: Img, fn: Img, file: Option<Source>, isPvm: bool, past: byte, base: nat) returns (rv: int, r: Img)
    requires Entries(img).Some? ==> HdrLen(Entries(img).value) < WORD
    ensures Entries(img).None? ==> rv == -1
    ensures Entries(img).Some? ==>
      rv == if Edit(img, NewPart(fn, file, isPvm)).Ok? then 0 else -7
    ensures rv == 0 ==> r == Written(Edit(img, NewPart(fn, file, isPvm)).value)
    ensures rv == 0 && Scan(img).Ok? && Applies(NewPart(fn, file, isPvm), Scan(img).value) ==>
      && (forall i :: 0 <= i < |Scan(img).value| ==> |Scan(img).value[i].entry| == 64)
      && var ms := Mapped(NewPart(fn, file, isPvm), Scan(img).value);
         r == Written(ms) && (Sound(ms) && Fits(ms) ==> Scan(r) == Ok(ms))
  {
    hide PutAll, HdrLen, Edit, Sound, Fits, Scan, Applies, ValidMembers;
    r := [];
    var fp, entries := OpenBml(img);
    if entries.None? {
      return -1, r;
    }
    var comp := ReadAndCmp(file, past, base);
    var u := Update(fn, isPvm, comp, if file.Some? then |file.value| else 0);
    var out := new MemFile([]);
    out.Write(Header(entries.value));
    rv := ScanBml(img, u, out, entries.value);
    if rv < 0 {
      return -7, r;
    }
    r := out.data;
    if Scan(img).Ok? && Applies(u, Scan(img).value) {
      EditMaps(img, u);
      MappedValid(u, Scan(img).value);
      var ms := Mapped(u, Scan(img).value);
      if Sound(ms) && Fits(ms) {
        WrittenScans(ms);
      }
    }
  }

  function NewPart(fn: Img, file: Option<Source>, isPvm: bool): Update {
    Update(fn, isPvm, Packed(file), if file.Some? then |file.value| else 0)
  }

  // ---------------------------------------------------------------- the new part

  /** The updated list: the files with other names stay, and of the others one part is new, its two sizes
      in the entry are those of the new part, and everything else in them stays. */
  lemma UpdatedAt(fn: Img, file: Source, isPvm: bool, ms: seq<Member>, i: nat)
    requires file != [] && (forall j :: 0 <= j < |ms| ==> |ms[j].entry| == 64) && i < |ms|
    ensures var was, m := ms[i], Mapped(NewPart(fn, Some(file), isPvm), ms)[i];
      if UpToNul(was.entry) != fn then m == was
      else
        && |m.entry| == 64 && m.entry[..32] == was.entry[..32] && m.entry[36..40] == was.entry[36..40] && m.entry[52..] == was.entry[52..]
        && (if isPvm then m.data == was.data && CSize(m.entry) == CSize(was.entry) && USize(m.entry) == USize(was.entry)
            else m.pvm == was.pvm && PvmSize(m.entry) == PvmSize(was.entry) && PvmUSize(m.entry) == PvmUSize(was.entry))
        && (if isPvm then PvmSize(m.entry) == |m.pvm| && PvmUSize(m.entry) == |file|
            else CSize(m.entry) == |m.data| && USize(m.entry) == |file|)
  {
    hide CSize, PvmSize, USize, PvmUSize, NewEntry, UpToNul;
    var comp := PrsEncoder.Compressed(file);
    PackedIs(file);
    CompressedFits(file);
    NewEntryIs(ms[i].entry, isPvm, |comp|, |file|);
  }

  lemma CompressedFits(file: Source)
    requires file != []
    ensures |PrsEncoder.Compressed(file)| < WORD
  {
    hide PrsEncoder.Compressed;
    PrsEncoder.CompressedSize(file);
  }

  /** The new part of an updated file, decompressed into a buffer of the size that its own entry says,
      gives the new file, exactly when the compressor has not met the edge of its window in it. */
  lemma NewPartDecompresses(fn: Img, file: Source, isPvm: bool, ms: seq<Member>, i: nat)
    requires file != [] && (forall j :: 0 <= j < |ms| ==> |ms[j].entry| == 64)
    requires i < |ms| && UpToNul(ms[i].entry) == fn
    ensures var m := Mapped(NewPart(fn, Some(file), isPvm), ms)[i];
      && |m.entry| == 64
      && (PrsFormat.Decompress(if isPvm then m.pvm else m.data, Some(if isPvm then PvmUSize(m.entry) else USize(m.entry))) == Ok(file)
        <==> !PrsEncoder.MeetsWindowEdge(file))
  {
    hide CSize, PvmSize, USize, PvmUSize, NewEntry, UpToNul, Packed;
    UpdatedAt(fn, file, isPvm, ms, i);
    PackedIs(file);
    PartDecompresses(file);
  }

  lemma PartDecompresses(file: Source)
    requires file != []
    ensures PrsFormat.Decompress(PrsEncoder.Compressed(file), Some(|file|)) == Ok(file) <==> !PrsEncoder.MeetsWindowEdge(file)
  {
    hide *;
    var comp := PrsEncoder.Compressed(file);
    PrsEncoder.RoundTrip(file);
    assert PrsFormat.Decompress(comp, None).Ok? && |PrsFormat.Decompress(comp, None).value| <= |file|;
    PrsFormat.DecompressLimit(comp, |file|);
  }
}
