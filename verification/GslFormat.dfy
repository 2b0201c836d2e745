/**
 GSL archives: what a scan finds in a byte image, the images that the tool writes, and when the first
 gives back the second.

 An archive is a table of names, sectors and sizes that ends at an empty name, and behind it the data
 of the files, each in sectors of 2048 bytes.  Numbers are in either byte order.
 */
module GslFormat {
  import opened Bytes
  import opened Image
  import opened Records

  datatype Order = Auto | Big | Little

  datatype Member = Member(name: Img, data: Img)

  // ---------------------------------------------------------------- fields

  function Word32(o: Order, n: nat): (b: Img)
    ensures |b| == 4
  {
    var b := Le32(n);
    if o.Big? then [b[3], b[2], b[1], b[0]] else b
  }

  function FromWord32(o: Order, b: Img): (n: nat)
    requires |b| == 4
    ensures n < WORD
  {
    if o.Big? then FromLe32([b[3], b[2], b[1], b[0]]) else FromLe32(b)
  }

  lemma Word32RoundTrip(o: Order, n: nat)
    ensures FromWord32(o, Word32(o, n)) == n % WORD
  {
    hide Le32, FromLe32;
    var b := Le32(n);
    assert [b[0], b[1], b[2], b[3]] == b;
    Le32RoundTrip(n);
  }

  predicate ValidName(name: Img) {
    0 < |name| <= 32 && forall i :: 0 <= i < |name| ==> name[i] != 0
  }

  function PadName(name: Img): (b: Img)
    ensures |b| >= 32 && (|name| <= 32 ==> |b| == 32)
  {
    name + Zeros(if |name| <= 32 then 32 - |name| else 0)
  }

  lemma {:induction false} NameThenZeros(name: Img, n: nat)
    requires forall i :: 0 <= i < |name| ==> name[i] != 0
    ensures UpToNul(name + Zeros(n)) == name
    decreases |name|
  {
    if name != [] {
      assert (name + Zeros(n))[1..] == name[1..] + Zeros(n);
      NameThenZeros(name[1..], n);
    }
  }

  // ---------------------------------------------------------------- reading

  datatype Peeked = Done | Bad(code: int) | Item(name: Img, at: nat, size: nat)

  datatype Found = Stop | Fail(code: int) | Got(m: Member)

  /** Table entry `i`: the end of the table, or the fields of a file, or an error code. */
  function Peek(o: Order, img: Img, i: nat): Peeked {
    var at := 48 * i;
    if |img| < at + 32 then Bad(-2)
    else if img[at] == 0 then Done
    else if |img| < at + 36 then Bad(-3)
    else if |img| < at + 40 then Bad(-4)
    else Item(UpToNul(img[at..at + 32]), 2048 * FromWord32(o, img[at + 32..at + 36]), FromWord32(o, img[at + 36..at + 40]))
  }

  /** The same with the file's data. */
  function Look(o: Order, img: Img, i: nat): Found {
    match Peek(o, img, i)
    case Done => Stop
    case Bad(code) => Fail(code)
    case Item(name, at, size) =>
      match Range(img, at, size)
      case None => Fail(-7)
      case Some(d) => Got(Member(name, d))
  }

  function ScanFrom(o: Order, img: Img, done: seq<Member>): Result<seq<Member>>
    decreases |img| - 48 * |done|
  {
    match Look(o, img, |done|)
    case Stop => Ok(done)
    case Fail(code) => Err(code)
    case Got(m) => ScanFrom(o, img, done + [m])
  }

  /** In 32 bits: a sector number that leads out of the file. */
  predicate Outside(sector: nat, total: nat) {
    sector * 2048 % WORD > total % WORD
  }

  /** The byte order that the first sector number suggests: big endian when that leads into the file. */
  function Guess(b: Img, total: nat): Result<Order>
    requires |b| == 4
  {
    var sector := FromWord32(Big, b);
    if sector > total % WORD || Outside(sector, total) then
      (if Outside(FromWord32(Little, b), total) then Err(-9) else Ok(Little))
    else Ok(Big)
  }

  /** The order for a whole scan; it is guessed at the first entry, if there is one. */
  function Resolve(o: Order, img: Img): Result<Order> {
    if o != Auto || |img| < 36 || img[0] == 0 then Ok(o) else Guess(img[32..36], |img|)
  }

  function Scan(o: Order, img: Img): Result<seq<Member>> {
    match Resolve(o, img)
    case Err(code) => Err(code)
    case Ok(o') => ScanFrom(o', img, [])
  }

  lemma {:induction false} ScanReaches(o: Order, img: Img, files: seq<Member>, k: nat)
    requires k <= |files|
    requires forall i :: k <= i < |files| ==> Look(o, img, i) == Got(files[i])
    requires Look(o, img, |files|) == Stop
    ensures ScanFrom(o, img, files[..k]) == Ok(files)
    decreases |files| - k
  {
    hide Look;
    if k < |files| {
      ScanReaches(o, img, files, k + 1);
      assert files[..k] + [files[k]] == files[..k + 1];
    } else {
      assert files[..k] == files;
    }
  }

  lemma {:induction false} ScanFound(o: Order, img: Img, done: seq<Member>, files: seq<Member>)
    requires ScanFrom(o, img, done) == Ok(files)
    ensures done <= files && Look(o, img, |files|) == Stop
    ensures forall i :: |done| <= i < |files| ==> Look(o, img, i) == Got(files[i])
    decreases |img| - 48 * |done|
  {
    match Look(o, img, |done|)
    case Stop =>
    case Fail(_) => assert false;
    case Got(m) =>
      ScanFound(o, img, done + [m], files);
      assert (done + [m])[|done|] == m;
  }

  /** A scan finds `files` exactly when the table leads to each of them, and ends there. */
  lemma ScanFinds(o: Order, img: Img, files: seq<Member>)
    ensures ScanFrom(o, img, []) == Ok(files) <==>
      Look(o, img, |files|) == Stop && forall i :: 0 <= i < |files| ==> Look(o, img, i) == Got(files[i])
  {
    hide Look, ScanFrom;
    if ScanFrom(o, img, []) == Ok(files) {
      ScanFound(o, img, [], files);
    }
    if Look(o, img, |files|) == Stop && forall i :: 0 <= i < |files| ==> Look(o, img, i) == Got(files[i]) {
      ScanReaches(o, img, files, 0);
      assert files[..0] == [];
    }
  }

  // ---------------------------------------------------------------- writing

  function Entry(o: Order, name: Img, wpos: nat, size: nat): (e: Img)
    ensures |name| <= 32 ==> |e| == 48
  {
    PadName(name) + Word32(o, wpos / 2048) + Word32(o, size) + Zeros(8)
  }

  function Put(o: Order, img: Img, i: nat, wpos: nat, m: Member): Img {
    PutRecord(img, 48 * i, Entry(o, m.name, wpos, |m.data|), wpos, m.data)
  }

  function End(wpos: nat, files: seq<Member>): (e: nat)
    ensures e >= wpos
  {
    if files == [] then wpos
    else
      var n := |files| - 1;
      PadUp(End(wpos, files[..n]) + |files[n].data|)
  }

  /** Writes `files` behind `first` others, their data from `wpos` on. */
  function PutAll(o: Order, img: Img, first: nat, wpos: nat, files: seq<Member>): Img {
    if files == [] then img
    else
      var n := |files| - 1;
      Put(o, PutAll(o, img, first, wpos, files[..n]), first + n, End(wpos, files[..n]), files[n])
  }

  /** The space that is kept for a table of `n` entries: a multiple of 4096, not of 2048. */
  function HdrLen(n: nat): (h: nat)
    ensures h % 4096 == 0 && h % 2048 == 0
    ensures 48 * n + 2048 < WORD ==> h <= 48 * n + 2048 < h + 4096
  {
    var x := (48 * n + 2048) % WORD;
    CutDown(x);
    x - x % 4096
  }

  lemma CutDown(x: nat)
    ensures (x - x % 4096) % 4096 == 0 && (x - x % 4096) % 2048 == 0
  {
    var q := x / 4096;
    assert x - x % 4096 == 4096 * q == 2048 * (2 * q);
    Blocks(q);
    Sectors(2 * q);
  }

  lemma Blocks(q: nat)
    ensures 4096 * q % 4096 == 0
  {
  }

  lemma Sectors(q: nat)
    ensures 2048 * q % 2048 == 0
  {
  }

  /** An archive whose data starts at `h`. */
  function Written(o: Order, h: nat, files: seq<Member>): Img {
    PutAll(o, [], 0, h, files)
  }

  ghost predicate Fits(h: nat, files: seq<Member>) {
    forall i :: 0 <= i < |files| ==> FitsAt(h, files, i)
  }

  ghost predicate FitsAt(h: nat, files: seq<Member>, i: nat)
    requires i < |files|
  {
    |files[i].data| < WORD && End(h, files[..i]) / 2048 < WORD
  }

  predicate ValidNames(files: seq<Member>) {
    forall i :: 0 <= i < |files| ==> ValidName(files[i].name)
  }

  // ---------------------------------------------------------------- the layout that all writers keep

  predicate Slot(o: Order, img: Img, i: nat, off: nat, m: Member) {
    && Range(img, 48 * i, 48) == Some(Entry(o, m.name, off, |m.data|))
    && Range(img, off, |m.data|) == Some(m.data)
  }

  ghost predicate LaidAt(o: Order, img: Img, h: nat, files: seq<Member>, i: nat)
    requires i < |files|
  {
    Slot(o, img, i, End(h, files[..i]), files[i])
  }

  /** The rest of the table space is zero. */
  ghost predicate Blank(img: Img, from: nat, h: nat) {
    forall j :: from <= j < h && j < |img| ==> img[j] == 0
  }

  ghost predicate Laid(o: Order, img: Img, h: nat, files: seq<Member>) {
    && 48 * |files| <= h && ValidNames(files)
    && |img| <= End(h, files) && (files != [] ==> |img| == End(h, files))
    && Blank(img, 48 * |files|, h)
    && forall i :: 0 <= i < |files| ==> LaidAt(o, img, h, files, i)
  }

  lemma {:induction false} RegionsDisjoint(wpos: nat, files: seq<Member>, i: nat)
    requires i < |files|
    ensures End(wpos, files[..i]) + |files[i].data| < End(wpos, files)
    decreases |files|
  {
    var n := |files| - 1;
    if i < n {
      RegionsDisjoint(wpos, files[..n], i);
      assert files[..n][..i] == files[..i];
    }
  }

  lemma EndOne(wpos: nat, files: seq<Member>, m: Member)
    ensures End(wpos, files + [m]) == PadUp(End(wpos, files) + |m.data|)
  {
    assert (files + [m])[..|files|] == files;
  }

  lemma SlotKept(o: Order, img: Img, k: nat, wpos: nat, m: Member, i: nat, off: nat, g: Member)
    requires Slot(o, img, i, off, g) && i < k && |m.name| <= 32 && 48 * k + 48 <= off && off + |g.data| <= wpos
    ensures Slot(o, Put(o, img, k, wpos, m), i, off, g)
  {
    hide Range, Entry, PutRecord;
    PutKeeps(img, 48 * k, Entry(o, m.name, wpos, |m.data|), wpos, m.data, 48 * i, 48);
    PutKeeps(img, 48 * k, Entry(o, m.name, wpos, |m.data|), wpos, m.data, off, |g.data|);
  }

  lemma LaidPutAt(o: Order, img: Img, h: nat, files: seq<Member>, m: Member, i: nat)
    requires Laid(o, img, h, files) && i <= |files| && 48 * |files| + 48 <= h && ValidName(m.name)
    ensures LaidAt(o, Put(o, img, |files|, End(h, files), m), h, files + [m], i)
  {
    hide Put, Range, Entry;
    if i < |files| {
      assert LaidAt(o, img, h, files, i);
      RegionsDisjoint(h, files, i);
      SlotKept(o, img, |files|, End(h, files), m, i, End(h, files[..i]), files[i]);
      assert (files + [m])[..i] == files[..i];
    } else {
      PutSlot(o, img, |files|, End(h, files), m);
      assert (files + [m])[..i] == files;
    }
  }

  lemma PutSlot(o: Order, img: Img, k: nat, wpos: nat, m: Member)
    requires |m.name| <= 32 && 48 * k + 48 <= wpos
    ensures Slot(o, Put(o, img, k, wpos, m), k, wpos, m)
  {
    hide Range, Entry, PutRecord;
    PutMakes(img, 48 * k, Entry(o, m.name, wpos, |m.data|), wpos, m.data);
  }

  lemma BlankKept(o: Order, img: Img, k: nat, wpos: nat, m: Member, h: nat)
    requires Blank(img, 48 * k, h) && |m.name| <= 32 && h <= wpos
    ensures Blank(Put(o, img, k, wpos, m), 48 * k + 48, h)
  {
    hide Entry;
  }

  lemma LaidPut(o: Order, img: Img, h: nat, files: seq<Member>, m: Member)
    requires Laid(o, img, h, files) && 48 * |files| + 48 <= h && ValidName(m.name)
    ensures Laid(o, Put(o, img, |files|, End(h, files), m), h, files + [m])
  {
    hide LaidAt, Put, Blank, End;
    var r, all := Put(o, img, |files|, End(h, files), m), files + [m];
    EndOne(h, files, m);
    LengthPut(o, img, |files|, End(h, files), m);
    BlankKept(o, img, |files|, End(h, files), m, h);
    forall i | 0 <= i < |all|
      ensures LaidAt(o, r, h, all, i)
    {
      LaidPutAt(o, img, h, files, m, i);
    }
  }

  lemma LengthPut(o: Order, img: Img, k: nat, wpos: nat, m: Member)
    requires |m.name| <= 32 && 48 * k + 48 <= wpos && |img| <= wpos
    ensures |Put(o, img, k, wpos, m)| == PadUp(wpos + |m.data|)
  {
    hide Entry, PutRecord;
    PutLength(img, 48 * k, Entry(o, m.name, wpos, |m.data|), wpos, m.data);
  }

  lemma {:induction false} EndAppend(wpos: nat, a: seq<Member>, b: seq<Member>)
    ensures End(wpos, a + b) == End(End(wpos, a), b)
    decreases |b|
  {
    if b == [] {
      assert a + b == a;
    } else {
      var n := |b| - 1;
      EndAppend(wpos, a, b[..n]);
      assert (a + b)[..|a| + n] == a + b[..n];
    }
  }

  lemma {:induction false} LaidPutAll(o: Order, img: Img, h: nat, files: seq<Member>, more: seq<Member>)
    requires Laid(o, img, h, files) && 48 * (|files| + |more|) <= h && ValidNames(more)
    ensures Laid(o, PutAll(o, img, |files|, End(h, files), more), h, files + more)
    decreases |more|
  {
    hide LaidAt, Put, Blank;
    if more == [] {
      assert files + more == files;
    } else {
      var n := |more| - 1;
      LaidPutAll(o, img, h, files, more[..n]);
      EndAppend(h, files, more[..n]);
      LaidPut(o, PutAll(o, img, |files|, End(h, files), more[..n]), h, files + more[..n], more[n]);
      assert files + more == (files + more[..n]) + [more[n]];
    }
  }

  lemma EntryFields(o: Order, name: Img, wpos: nat, size: nat)
    requires |name| <= 32
    ensures var e := Entry(o, name, wpos, size);
      e[..32] == PadName(name) && e[32..36] == Word32(o, wpos / 2048) && e[36..40] == Word32(o, size)
  {
    hide Word32;
  }

  lemma SliceOfSlice(img: Img, at: nat, e: Img, a: nat, b: nat)
    requires Range(img, at, |e|) == Some(e) && a <= b <= |e| && |e| > 0
    ensures |img| >= at + |e| && img[at + a..at + b] == e[a..b]
  {
    assert e == img[at..at + |e|];
    var x, y := img[at + a..at + b], e[a..b];
    assert |x| == |y|;
    assert forall k :: 0 <= k < |x| ==> x[k] == img[at + a + k] && y[k] == e[a + k];
    assert x == y;
  }

  /** The fields of an entry, as a scan reads them. */
  lemma FieldsRead(o: Order, img: Img, i: nat, off: nat, m: Member)
    requires Slot(o, img, i, off, m) && ValidName(m.name)
    requires off % 2048 == 0 && off / 2048 < WORD && |m.data| < WORD
    ensures |img| >= 48 * i + 48
    ensures img[48 * i..48 * i + 32] == PadName(m.name)
    ensures FromWord32(o, img[48 * i + 32..48 * i + 36]) == off / 2048
    ensures FromWord32(o, img[48 * i + 36..48 * i + 40]) == |m.data|
  {
    hide Word32, FromWord32, Entry, PadName;
    var at, e := 48 * i, Entry(o, m.name, off, |m.data|);
    EntryFields(o, m.name, off, |m.data|);
    SliceOfSlice(img, at, e, 0, 32);
    SliceOfSlice(img, at, e, 32, 36);
    SliceOfSlice(img, at, e, 36, 40);
    Word32RoundTrip(o, off / 2048);
    Word32RoundTrip(o, |m.data|);
  }

  lemma SlotReads(o: Order, img: Img, i: nat, off: nat, m: Member)
    requires Slot(o, img, i, off, m) && ValidName(m.name)
    requires off % 2048 == 0 && off / 2048 < WORD && |m.data| < WORD
    ensures Look(o, img, i) == Got(m)
  {
    hide FromWord32, Entry, UpToNul, Range;
    FieldsRead(o, img, i, off, m);
    assert img[48 * i] == img[48 * i..48 * i + 32][0] == m.name[0];
    NameThenZeros(m.name, 32 - |m.name|);
  }

  lemma EndAligned(h: nat, files: seq<Member>)
    requires h % 2048 == 0
    ensures End(h, files) % 2048 == 0
  {
  }

  lemma PadUpFar(x: nat, h: nat)
    requires h <= x && h % 2048 == 0
    ensures PadUp(x) >= h + 2048
  {
  }

  lemma LaidStops(o: Order, img: Img, h: nat, files: seq<Member>)
    requires Laid(o, img, h, files) && files != [] && 48 * |files| < h && h % 2048 == 0
    ensures Look(o, img, |files|) == Stop
  {
    hide LaidAt, PadUp;
    var n := |files| - 1;
    assert |img| == PadUp(End(h, files[..n]) + |files[n].data|);
    PadUpFar(End(h, files[..n]) + |files[n].data|, h);
    assert img[48 * |files|] == 0;
  }

  /** Where the table is followed by a free byte, the scan finds what was laid out. */
  lemma LaidScans(o: Order, img: Img, h: nat, files: seq<Member>)
    requires Laid(o, img, h, files) && Fits(h, files) && files != [] && 48 * |files| < h && h % 2048 == 0
    ensures ScanFrom(o, img, []) == Ok(files)
  {
    hide Look, Slot, ScanFrom, Blank;
    forall i | 0 <= i < |files|
      ensures Look(o, img, i) == Got(files[i])
    {
      assert LaidAt(o, img, h, files, i) && FitsAt(h, files, i) && ValidName(files[i].name);
      EndAligned(h, files[..i]);
      SlotReads(o, img, i, End(h, files[..i]), files[i]);
    }
    LaidStops(o, img, h, files);
    ScanFinds(o, img, files);
  }

  lemma WrittenScans(o: Order, h: nat, files: seq<Member>)
    requires ValidNames(files) && Fits(h, files) && files != [] && 48 * |files| < h && h % 2048 == 0
    ensures ScanFrom(o, Written(o, h, files), []) == Ok(files)
  {
    hide LaidAt, Fits, PutAll, ScanFrom;
    LaidPutAll(o, [], h, [], files);
    assert [] + files == files;
    LaidScans(o, Written(o, h, files), h, files);
  }

  // ---------------------------------------------------------------- when the table space is too small

  predicate ScansBack(o: Order, h: nat, files: seq<Member>) {
    ScanFrom(o, Written(o, h, files), []) == Ok(files)
  }

  /** One file of one byte, and nothing else. */
  function Lone(x: byte, n: nat): (files: seq<Member>)
    ensures |files| == n && ValidNames(files)
  {
    seq(n, i => Member([1], if i == 0 then [x] else []))
  }

  lemma {:induction false} LoneEnd(h: nat, x: byte, n: nat, k: nat)
    requires k <= n && h % 2048 == 0
    ensures End(h, Lone(x, n)[..k]) == h + 2048 * k
    decreases k
  {
    if k > 0 {
      LoneEnd(h, x, n, k - 1);
      assert Lone(x, n)[..k][..k - 1] == Lone(x, n)[..k - 1];
      var d := |Lone(x, n)[k - 1].data|;
      assert d <= 1;
      assert PadUp(h + 2048 * (k - 1) + d) == h + 2048 * k;
    }
  }

  lemma LoneFits(h: nat, x: byte, n: nat)
    requires h % 2048 == 0 && h + 2048 * n < 2048 * WORD
    ensures Fits(h, Lone(x, n))
  {
    forall i | 0 <= i < n
      ensures FitsAt(h, Lone(x, n), i)
    {
      LoneEnd(h, x, n, i);
    }
  }

  /** The table entries of the lone file and of the empty ones behind it. */
  function LoneEntry(o: Order, h: nat, k: nat): (e: Img)
    ensures |e| == 48
  {
    Entry(o, [1], h + 2048 * k, if k == 0 then 1 else 0)
  }

  /** One more file of the list. */
  lemma LoneStep(o: Order, h: nat, x: byte, n: nat, k: nat)
    requires k < n && h % 2048 == 0
    ensures PutAll(o, [], 0, h, Lone(x, n)[..k + 1]) ==
      PutRecord(PutAll(o, [], 0, h, Lone(x, n)[..k]), 48 * k, LoneEntry(o, h, k), h + 2048 * k, Lone(x, n)[k].data)
  {
    hide PutRecord, Entry;
    LoneEnd(h, x, n, k);
    assert Lone(x, n)[..k + 1][..k] == Lone(x, n)[..k];
  }

  /** The first byte of data, which the table may cover: then it is a byte of the table. */
  function FirstByte(o: Order, h: nat, x: byte, k: nat): byte {
    var j := h / 48;
    if j == 0 || k <= j then x else LoneEntry(o, h, j)[h - 48 * j]
  }

  lemma {:induction false} FirstByteWritten(o: Order, h: nat, x: byte, n: nat, k: nat)
    requires 0 < k <= n && h % 2048 == 0
    ensures Range(PutAll(o, [], 0, h, Lone(x, n)[..k]), h, 1) == Some([FirstByte(o, h, x, k)])
    decreases k
  {
    hide PutRecord, Entry, PutAll, LoneEntry, Range;
    var was := PutAll(o, [], 0, h, Lone(x, n)[..k - 1]);
    LoneStep(o, h, x, n, k - 1);
    if k == 1 {
      PutMakesData(was, 0, LoneEntry(o, h, 0), h, [x]);
    } else {
      FirstByteWritten(o, h, x, n, k - 1);
      var e := LoneEntry(o, h, k - 1);
      if 48 * (k - 1) <= h < 48 * k {
        InRecord(was, 48 * (k - 1), e, h + 2048 * (k - 1), [], h);
      } else {
        PutKeeps(was, 48 * (k - 1), e, h + 2048 * (k - 1), [], h, 1);
      }
    }
  }

  lemma InRecord(img: Img, fpos: nat, record: Img, wpos: nat, data: Img, at: nat)
    requires fpos <= at < fpos + |record| && at + 1 <= wpos
    ensures Range(PutRecord(img, fpos, record, wpos, data), at, 1) == Some([record[at - fpos]])
  {
    hide Overwrite;
    var img1 := Overwrite(img, fpos, record);
    RangeWritten(img, fpos, record);
    assert img1[at] == img1[fpos..fpos + |record|][at - fpos];
    assert img1[at..at + 1] == [record[at - fpos]];
    hide Range;
    RangeKept(img1, wpos, data, at, 1);
    RangeKept(Overwrite(img1, wpos, data), PadUp(wpos + |data|) - 1, [0], at, 1);
  }

  lemma {:induction false} FirstEntryWritten(o: Order, h: nat, x: byte, n: nat, k: nat)
    requires 0 < k <= n && h % 2048 == 0 && h > 0
    ensures Range(PutAll(o, [], 0, h, Lone(x, n)[..k]), 0, 48) == Some(LoneEntry(o, h, 0))
    decreases k
  {
    hide PutRecord, Entry, PutAll, LoneEntry, Range;
    var was := PutAll(o, [], 0, h, Lone(x, n)[..k - 1]);
    LoneStep(o, h, x, n, k - 1);
    if k == 1 {
      PutMakesRecord(was, 0, LoneEntry(o, h, 0), h, [x]);
    } else {
      FirstEntryWritten(o, h, x, n, k - 1);
      PutKeeps(was, 48 * (k - 1), LoneEntry(o, h, k - 1), h + 2048 * (k - 1), [], 0, 48);
    }
  }

  lemma EmptyTable(o: Order, img: Img, files: seq<Member>)
    requires |img| < 32 || img[0] == 0
    requires files != [] || |img| < 32
    ensures ScanFrom(o, img, []) != Ok(files)
  {
  }

  /** A data byte that the table covers: the first file does not come back. */
  lemma CoveredByte(o: Order, h: nat, x: byte, n: nat)
    requires 0 < h < 48 * n && h % 2048 == 0 && h < 2048 * WORD && o != Auto
    requires x != FirstByte(o, h, x, n)
    ensures !ScansBack(o, h, Lone(x, n))
  {
    hide LoneEntry, FirstByte, Look, ScanFrom, PutAll;
    var img, m := Written(o, h, Lone(x, n)), Member([1], [FirstByte(o, h, x, n)]);
    assert Lone(x, n)[..n] == Lone(x, n);
    FirstByteWritten(o, h, x, n, n);
    FirstEntryWritten(o, h, x, n, n);
    assert LoneEntry(o, h, 0) == Entry(o, [1], h, 1) by {
      LoneEntryIs(o, h);
    }
    SlotReads(o, img, 0, h, m);
    ScanFinds(o, img, Lone(x, n));
  }

  lemma LoneEntryIs(o: Order, h: nat)
    ensures LoneEntry(o, h, 0) == Entry(o, [1], h, 1)
  {
    hide Entry;
  }

  /** Data right behind the table: its first byte reads as one more name. */
  lemma OneMoreName(o: Order, h: nat, n: nat)
    requires h == 48 * n > 0 && h % 2048 == 0
    ensures !ScansBack(o, h, Lone(1, n))
  {
    hide LoneEntry, ScanFrom, PutAll;
    assert Lone(1, n)[..n] == Lone(1, n);
    FirstByteWritten(o, h, 1, n, n);
    assert h / 48 == n;
    var img := Written(o, h, Lone(1, n));
    assert img[h..h + 1] == [1];
    assert img[h] == img[h..h + 1][0];
    ScanFinds(o, img, Lone(1, n));
  }

  /** Data over the first entry: its first byte, if zero, ends the table. */
  lemma NoName(o: Order, n: nat)
    requires n > 0
    ensures !ScansBack(o, 0, Lone(0, n))
  {
    hide LoneEntry, PutAll;
    assert Lone(0, n)[..n] == Lone(0, n);
    FirstByteWritten(o, 0, 0, n, n);
    var img := Written(o, 0, Lone(0, n));
    assert img[0] == img[0..1][0];
    EmptyTable(o, img, Lone(0, n));
  }

  /** A list of `n` files that does not come back. */
  function LostFiles(o: Order, h: nat, n: nat): (files: seq<Member>)
    ensures |files| == n && ValidNames(files)
  {
    if 0 < h < 48 * n then Lone(if FirstByte(o, h, 0, n) == 0 then 1 else 0, n)
    else Lone(if h == 0 then 0 else 1, n)
  }

  lemma LostFilesLost(o: Order, h: nat, n: nat)
    requires h % 2048 == 0 && h < 2048 * WORD && o != Auto && (n == 0 || h <= 48 * n)
    ensures !ScansBack(o, h, LostFiles(o, h, n))
  {
    hide ScansBack;
    if n == 0 {
      assert LostFiles(o, h, n) == [];
      assert !ScansBack(o, h, []) by {
        NothingWritten(o, h);
      }
    } else if h == 0 {
      NoName(o, n);
    } else if h == 48 * n {
      OneMoreName(o, h, n);
    } else {
      hide FirstByte;
      FirstByteFree(o, h, n);
      CoveredByte(o, h, if FirstByte(o, h, 0, n) == 0 then 1 else 0, n);
    }
  }

  lemma NothingWritten(o: Order, h: nat)
    ensures !ScansBack(o, h, [])
  {
  }

  /** Which byte covers the data does not depend on the data. */
  lemma FirstByteFree(o: Order, h: nat, n: nat)
    requires 2048 <= h < 48 * n
    ensures FirstByte(o, h, 0, n) == FirstByte(o, h, 1, n)
  {
    hide LoneEntry;
  }

  /** The archives of `n` files whose data starts at `h` all come back exactly when the table is
      followed by a free byte. */
  lemma TableNeedsRoom(o: Order, h: nat, n: nat)
    requires o != Auto && h % 2048 == 0 && h + 2048 * n < 2048 * WORD
    ensures (forall files: seq<Member> :: |files| == n && ValidNames(files) && Fits(h, files) ==> ScansBack(o, h, files))
      <==> n > 0 && 48 * n < h
  {
    hide ScansBack, Fits;
    if n > 0 && 48 * n < h {
      forall files: seq<Member> | |files| == n && ValidNames(files) && Fits(h, files)
        ensures ScansBack(o, h, files)
      {
        assert ScansBack(o, h, files) by {
          WrittenScansBack(o, h, files);
        }
      }
    } else {
      LostFilesLost(o, h, n);
      LostFilesFit(o, h, n);
    }
  }

  lemma LostFilesFit(o: Order, h: nat, n: nat)
    requires h % 2048 == 0 && h + 2048 * n < 2048 * WORD
    ensures Fits(h, LostFiles(o, h, n))
  {
    hide FirstByte, Fits;
    LoneFits(h, 0, n);
    LoneFits(h, 1, n);
  }

  lemma WrittenScansBack(o: Order, h: nat, files: seq<Member>)
    requires ValidNames(files) && Fits(h, files) && files != [] && 48 * |files| < h && h % 2048 == 0
    ensures ScansBack(o, h, files)
  {
    hide PutAll, ScanFrom, Fits;
    WrittenScans(o, h, files);
  }

  /** With the header space that the tool keeps: the table has room exactly when its length leaves
      at least 2048 in its last 4096 bytes. */
  lemma HeaderHasRoom(n: nat)
    requires 48 * n + 2048 < WORD
    ensures n > 0 && 48 * n < HdrLen(n) <==> 48 * n % 4096 >= 2048
  {
    RoundedRoom(48 * n);
  }

  lemma RoundedRoom(t: nat)
    ensures var x := t + 2048;
      && (t < x - x % 4096 <==> t % 4096 >= 2048)
      && (t == 0 ==> x - x % 4096 == 0)
  {
    var q, r := t / 4096, t % 4096;
    if r >= 2048 {
      assert (t + 2048) % 4096 == r - 2048;
    } else {
      assert (t + 2048) % 4096 == r + 2048;
    }
  }

  // ---------------------------------------------------------------- guessing the byte order

  lemma SwappedIsLarge(s: nat)
    requires 0 < s < 0x2000
    ensures var b := FromWord32(Big, Word32(Little, s));
      b >= 0x100_0000 || 0x800_0000 <= b * 2048 < WORD
  {
    var low, high := s % 256, s / 256;
    assert Word32(Little, s) == [low, high, 0, 0];
    assert high < 32 && s == low + 256 * high;
    assert FromWord32(Big, Word32(Little, s)) == 256 * (256 * (high + 256 * low));
  }

  /** Below 16 MiB the guess is right for both byte orders, in spite of the 32-bit product, when the
      first sector is in range and not zero. */
  lemma GuessIsRight(o: Order, s: nat, total: nat)
    requires o != Auto && 0 < s && 2048 * s <= total < 0x100_0000
    ensures Guess(Word32(o, s), total) == Ok(o)
  {
    hide Word32, FromWord32;
    Word32RoundTrip(o, s);
    if o == Little {
      SwappedIsLarge(s);
    }
  }

  /** From 16 MiB on sector 8192 in little endian is not recognized: in big endian it reads as sector
      2097152, whose offset wraps around to zero. */
  lemma GuessIsWrong(total: nat)
    requires total >= 0x100_0000
    ensures Guess(Word32(Little, 8192), total) != Ok(Little)
  {
    assert Word32(Little, 8192) == [0, 0x20, 0, 0];
    assert total < WORD ==> total % WORD == total;
  }

  predicate Guessed(total: nat, o: Order, s: nat) {
    Guess(Word32(o, s), total) == Ok(o)
  }

  /** The guess is right for every nonzero first sector in range, in both byte orders, exactly for
      archives below 16 MiB. */
  lemma GuessIsExact(total: nat)
    ensures (forall o: Order, s: nat :: o != Auto && 0 < s && 2048 * s <= total ==> Guessed(total, o, s))
      <==> total < 0x100_0000
  {
    hide Guess, Word32;
    if total < 0x100_0000 {
      forall o: Order, s: nat | o != Auto && 0 < s && 2048 * s <= total
        ensures Guessed(total, o, s)
      {
        GuessIsRight(o, s, total);
      }
    } else {
      GuessIsWrong(total);
      assert !Guessed(total, Little, 8192);
    }
  }

  lemma FirstSector(o: Order, img: Img, h: nat, m: Member)
    requires Slot(o, img, 0, h, m) && ValidName(m.name)
    ensures |img| >= 36 && img[0] != 0 && img[32..36] == Word32(o, h / 2048)
  {
    hide Word32, Entry;
    EntryFields(o, m.name, h, |m.data|);
    SliceOfSlice(img, 0, Entry(o, m.name, h, |m.data|), 0, 32);
    SliceOfSlice(img, 0, Entry(o, m.name, h, |m.data|), 32, 36);
    assert img[0] == img[0..32][0] == m.name[0];
  }

  /** So a scan that guesses finds what was written in either order. */
  lemma GuessingScans(o: Order, h: nat, files: seq<Member>)
    requires ValidNames(files) && Fits(h, files) && files != [] && 48 * |files| < h && h % 2048 == 0
    requires o != Auto && End(h, files) < 0x100_0000
    ensures Scan(Auto, Written(o, h, files)) == Ok(files)
  {
    hide PutAll, ScanFrom, Fits, LaidAt, Guess, Slot;
    WrittenScans(o, h, files);
    LaidPutAll(o, [], h, [], files);
    assert [] + files == files;
    var img := Written(o, h, files);
    assert LaidAt(o, img, h, files, 0);
    assert Slot(o, img, 0, h, files[0]) by {
      FirstLaid(o, img, h, files);
    }
    FirstSector(o, img, h, files[0]);
    GuessIsRight(o, h / 2048, |img|);
  }

  lemma FirstLaid(o: Order, img: Img, h: nat, files: seq<Member>)
    requires files != [] && LaidAt(o, img, h, files, 0)
    ensures Slot(o, img, 0, h, files[0])
  {
    hide Slot;
    assert files[..0] == [];
  }
}
