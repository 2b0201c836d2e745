/** Directory trees on an ISO 9660 disc: how ECMA-119 lays them out in bytes, and that a path leads where
    the tree says. */
module IsoTree {
  import opened Bytes
  import Image
  import opened IsoFiles
  import opened IsoDirs

  // ---------------------------------------------------------------- records in bytes

  function BigEndian(n: nat): (b: seq<byte>)
    ensures |b| == 4
  {
    [n / 0x100_0000 % 256, n / 0x1_0000 % 256, n / 0x100 % 256, n % 256]
  }

  lemma BigEndianReads(b: seq<byte>, at: nat, n: nat)
    requires at + 4 <= |b| && b[at..at + 4] == BigEndian(n) && n < WORD
    ensures Be32(b, at) == n
  {
    assert b[at] == b[at..at + 4][0] && b[at + 1] == b[at..at + 4][1];
    assert b[at + 2] == b[at..at + 4][2] && b[at + 3] == b[at..at + 4][3];
    var x, y := n / 0x100, n / 0x1_0000;
    assert y == x / 0x100 && n / 0x100_0000 == y / 0x100;
  }

  /** The fields of a record that the code does not look at: the attribute length, the first halves of
      the two-order numbers, the date, and what stands between the flags and the name. */
  datatype Unread = Unread(attr: seq<byte>, lba: seq<byte>, len: seq<byte>, date: seq<byte>, flags: nat, mid: seq<byte>, pad: seq<byte>)

  /** A record as section 9.1 of ECMA-119 lays it out. */
  predicate Writable(r: Rec, u: Unread) {
    && |u.attr| == 1 && |u.lba| == 4 && |u.len| == 4 && |u.date| == 7 && |u.mid| == 6 && u.flags < 64
    && |r.name| < 256 && 33 + |r.name| + |u.pad| < 256 && r.lba < WORD && r.len < WORD
  }

  function Flags(isDir: bool, others: nat): (f: byte)
    requires others < 64
    ensures f as int / 2 % 2 == 1 <==> isDir
  {
    others % 2 + (if isDir then 2 else 0) + others / 2 * 4
  }

  function RecordBytes(r: Rec, u: Unread): (b: seq<byte>)
    requires Writable(r, u)
    ensures |b| == 33 + |r.name| + |u.pad|
  {
    [33 + |r.name| + |u.pad|] + u.attr + u.lba + BigEndian(r.lba) + u.len + BigEndian(r.len) + u.date
    + [Flags(r.isDir, u.flags)] + u.mid + [|r.name|] + r.name + u.pad
  }

  /** A written record reads as itself. */
  lemma RecordReads(s: Sector, i: nat, r: Rec, u: Unread)
    requires Writable(r, u) && i + |RecordBytes(r, u)| <= SECTOR && s[i..i + |RecordBytes(r, u)|] == RecordBytes(r, u)
    ensures s[i] as int == |RecordBytes(r, u)| && Fits(s, i) && RecAt(s, i) == r
  {
    hide BigEndian, Be32, Flags;
    var b, n := RecordBytes(r, u), |r.name|;
    assert forall k :: 0 <= k < |b| ==> s[i + k] == b[k];
    assert s[i + 0] == b[0] && s[i + 25] == b[25] == Flags(r.isDir, u.flags) && s[i + 32] == b[32] == n;
    assert s[i + 6..i + 10] == b[6..10] == BigEndian(r.lba);
    assert s[i + 14..i + 18] == b[14..18] == BigEndian(r.len);
    assert s[i + 33..i + 33 + n] == b[33..33 + n] == r.name;
    BigEndianReads(s, i + 6, r.lba);
    BigEndianReads(s, i + 14, r.len);
  }

  // ---------------------------------------------------------------- sectors and directories in bytes

  predicate AllWritable(rs: seq<Rec>, us: seq<Unread>) {
    |rs| == |us| && forall i :: 0 <= i < |rs| ==> Writable(rs[i], us[i])
  }

  function AllBytes(rs: seq<Rec>, us: seq<Unread>): seq<byte>
    requires AllWritable(rs, us)
  {
    if rs == [] then [] else RecordBytes(rs[0], us[0]) + AllBytes(rs[1..], us[1..])
  }

  /** The bytes of a directory of `len` bytes that lie in its first sector. */
  function Room(len: nat): nat {
    if len < SECTOR then len else SECTOR
  }

  /** A sector holds the records one behind the other, with a zero behind them if there is room for
      one. */
  predicate Packed(s: Sector, i: nat, len: nat, rs: seq<Rec>, us: seq<Unread>) {
    AllWritable(rs, us) &&
    var end := i + |AllBytes(rs, us)|;
    && end <= Room(len) && s[i..end] == AllBytes(rs, us) && (end < Room(len) ==> s[end] == 0)
  }

  /** A directory as section 6.8.1 of ECMA-119 lays it out: no record goes on in the next sector. */
  ghost predicate OnDisc(disc: Disc, sec: nat, len: nat, rs: seq<Rec>)
    decreases len
  {
    if len == 0 then rs == []
    else
      && disc(sec).Some?
      && exists n: nat, us: seq<Unread> ::
           n <= |rs| && Packed(disc(sec).value, 0, len, rs[..n], us) && OnDisc(disc, sec + 1, Left(len), rs[n..])
  }

  lemma CutSlice(s: seq<byte>, i: nat, a: seq<byte>, b: seq<byte>)
    requires i + |a| + |b| <= |s| && s[i..i + |a + b|] == a + b
    ensures s[i..i + |a|] == a && s[i + |a|..i + |a| + |b|] == b
  {
    assert s[i..i + |a|] == s[i..i + |a + b|][..|a|];
    assert s[i + |a|..i + |a| + |b|] == s[i..i + |a + b|][|a|..];
  }

  /** Such a sector reads as its records. */
  lemma {:induction false} SectorReads(s: Sector, i: nat, len: nat, rs: seq<Rec>, us: seq<Unread>)
    requires Packed(s, i, len, rs, us)
    ensures Records(s, i, len) == Some(rs)
    decreases |rs|
  {
    hide RecordBytes, RecAt, Writable, Fits;
    if rs != [] {
      var b, rest := RecordBytes(rs[0], us[0]), AllBytes(rs[1..], us[1..]);
      var n := |b|;
      assert AllBytes(rs, us) == b + rest;
      CutSlice(s, i, b, rest);
      RecordReads(s, i, rs[0], us[0]);
      assert n > 0;
      SectorReads(s, i + n, len, rs[1..], us[1..]);
      assert [rs[0]] + rs[1..] == rs;
    }
  }

  /** Such a directory reads as its records. */
  lemma {:induction false} DirectoryReads(disc: Disc, sec: nat, len: nat, rs: seq<Rec>)
    requires OnDisc(disc, sec, len, rs)
    ensures DirRecords(disc, sec, len) == Some(rs)
    decreases len
  {
    hide Packed, Records;
    if len > 0 {
      var n: nat, us: seq<Unread> :|
        n <= |rs| && Packed(disc(sec).value, 0, len, rs[..n], us) && OnDisc(disc, sec + 1, Left(len), rs[n..]);
      SectorReads(disc(sec).value, 0, len, rs[..n], us);
      DirectoryReads(disc, sec + 1, Left(len), rs[n..]);
      assert rs[..n] + rs[n..] == rs;
    }
  }

  // ---------------------------------------------------------------- trees

  datatype Tree = Tree(lba: nat, len: nat, kids: seq<Kid>)

  datatype Kid = Kid(name: Name, isDir: bool, node: Tree)

  /** The names of a directory for itself and for the one above it, section 7.6.2 of ECMA-119. */
  const SELF: Name := [0]
  const PARENT: Name := [1]

  function KidRecs(kids: seq<Kid>): (rs: seq<Rec>)
    ensures |rs| == |kids|
  {
    seq(|kids|, i requires 0 <= i < |kids| => Rec(kids[i].name, kids[i].isDir, kids[i].node.lba, kids[i].node.len))
  }

  /** The records of directory `t` below `up`. */
  function DirRecs(t: Tree, up: Tree): seq<Rec> {
    [Rec(SELF, true, t.lba, t.len), Rec(PARENT, true, up.lba, up.len)] + KidRecs(t.kids)
  }

  /** Logical sector 0 is physical sector 150. */
  function PhysicalSector(lba: nat): nat {
    (150 + lba) % WORD
  }

  /** The disc holds the tree of directories from `t` down. */
  ghost predicate HoldsTree(disc: Disc, t: Tree, up: Tree)
    decreases t
  {
    && OnDisc(disc, PhysicalSector(t.lba), t.len, DirRecs(t, up))
    && forall i :: 0 <= i < |t.kids| && t.kids[i].isDir ==> HoldsTree(disc, t.kids[i].node, t)
  }

  /** The record of the root directory in the volume descriptor, section 8.4.18. */
  ghost predicate Describes(s: Sector, t: Tree) {
    s[..6] == [1, 0x43, 0x44, 0x30, 0x30, 0x31]
    && exists u: Unread :: var r := Rec(SELF, true, t.lba, t.len);
         Writable(r, u) && s[156..156 + |RecordBytes(r, u)|] == RecordBytes(r, u)
  }

  /** A disc whose data track holds the tree; the root is the directory above itself. */
  ghost predicate Formatted(disc: Disc, track: nat, t: Tree) {
    track != 0 && disc(track + 16).Some? && Describes(disc(track + 16).value, t) && HoldsTree(disc, t, t)
  }

  // ---------------------------------------------------------------- lookup in a tree

  function FirstKid(kids: seq<Kid>, isDir: bool, name: Name): Option<Kid> {
    if kids == [] then None
    else if kids[0].isDir == isDir && Matches(name, kids[0].name) then Some(kids[0])
    else FirstKid(kids[1..], isDir, name)
  }

  /** A place in the tree, with the directories above it, the nearest first. */
  datatype Place = Place(node: Tree, above: seq<Tree>) {
    function Up(): Tree {
      if above == [] then node else above[0]
    }
  }

  /** One component: this directory, the one above, or the first child with the name. */
  function Enter(p: Place, isDir: bool, name: Name): Option<Place> {
    if isDir && name == SELF then Some(p)
    else if isDir && name == PARENT then Some(if p.above == [] then p else Place(p.above[0], p.above[1..]))
    else
      match FirstKid(p.node.kids, isDir, name)
      case None => None
      case Some(k) => Some(Place(k.node, [p.node] + p.above))
  }

  /** All components but the last are directories, the last is of the wanted kind. */
  function Lookup(p: Place, names: seq<Name>, slash: bool, wantDir: bool): Option<Tree>
    decreases |names|
  {
    if names == [] then (if wantDir then Some(p.node) else None)
    else
      var last := |names| == 1 && !slash;
      match Enter(p, last ==> wantDir, names[0])
      case None => None
      case Some(q) => if last then Some(q.node) else Lookup(q, names[1..], slash, wantDir)
  }

  // ---------------------------------------------------------------- the search is the lookup

  lemma {:induction false} FirstOfKids(kids: seq<Kid>, isDir: bool, name: Name)
    ensures match FirstKid(kids, isDir, name)
      case None => First(KidRecs(kids), isDir, name) == None
      case Some(k) =>
        && k in kids && k.isDir == isDir
        && First(KidRecs(kids), isDir, name) == Some(Rec(k.name, k.isDir, k.node.lba, k.node.len))
    decreases |kids|
  {
    hide Matches;
    if kids != [] {
      assert KidRecs(kids)[1..] == KidRecs(kids[1..]);
      FirstOfKids(kids[1..], isDir, name);
    }
  }

  lemma FirstOfDir(t: Tree, up: Tree, isDir: bool, name: Name)
    ensures First(DirRecs(t, up), isDir, name) ==
      if isDir && name == SELF then Some(Rec(SELF, true, t.lba, t.len))
      else if isDir && name == PARENT then Some(Rec(PARENT, true, up.lba, up.len))
      else First(KidRecs(t.kids), isDir, name)
  {
    hide KidRecs;
    var rs := DirRecs(t, up);
    assert rs[1..][0] == rs[1] && rs[1..][1..] == KidRecs(t.kids);
    OneByteName(name, 0);
    OneByteName(name, 1);
  }

  lemma OneByteName(name: Name, b: byte)
    requires b != SEMICOLON
    ensures Matches(name, [b]) <==> name == [b]
  {
  }

  /** The place and everything above it are on the disc. */
  ghost predicate Placed(disc: Disc, p: Place)
    decreases |p.above|
  {
    HoldsTree(disc, p.node, p.Up()) && (p.above != [] ==> Placed(disc, Place(p.above[0], p.above[1..])))
  }

  /** One component. */
  lemma EnterFinds(disc: Disc, p: Place, isDir: bool, name: Name)
    requires Placed(disc, p)
    ensures var w := Search(disc, Extent(p.node.lba, p.node.len).sec, p.node.len, isDir, name);
      match Enter(p, isDir, name)
      case None => w == Failed(ERR_NOFILE)
      case Some(q) => w == Extent(q.node.lba, q.node.len) && (isDir ==> Placed(disc, q))
  {
    hide OnDisc, Matches, Search, First, DirRecs, FirstKid;
    var t, sec := p.node, Extent(p.node.lba, p.node.len).sec;
    DirectoryReads(disc, sec, t.len, DirRecs(t, p.Up()));
    SearchFinds(disc, sec, t.len, isDir, name);
    FirstOfDir(t, p.Up(), isDir, name);
    FirstOfKids(t.kids, isDir, name);
    if !(isDir && (name == SELF || name == PARENT)) && FirstKid(t.kids, isDir, name).Some? {
      var k, q := FirstKid(t.kids, isDir, name).value, Place(FirstKid(t.kids, isDir, name).value.node, [t] + p.above);
      assert q.above[0] == t && q.above[1..] == p.above;
      if isDir {
        var i :| 0 <= i < |t.kids| && t.kids[i] == k;
        assert HoldsTree(disc, t.kids[i].node, t);
      }
    }
  }

  /** Following components on the disc is looking them up in the tree. */
  lemma {:induction false} FollowIsLookup(disc: Disc, p: Place, names: seq<Name>, slash: bool, wantDir: bool)
    requires Placed(disc, p)
    ensures Follow(disc, Extent(p.node.lba, p.node.len).sec, p.node.len, names, slash, wantDir) ==
      match Lookup(p, names, slash, wantDir) { case None => Failed(ERR_NOFILE) case Some(t) => Extent(t.lba, t.len) }
    decreases |names|
  {
    hide Placed, Search, Enter;
    if names != [] {
      var last := |names| == 1 && !slash;
      EnterFinds(disc, p, last ==> wantDir, names[0]);
      var q := Enter(p, last ==> wantDir, names[0]);
      if q.Some? && !last {
        FollowIsLookup(disc, q.value, names[1..], slash, wantDir);
      }
    }
  }

  lemma RootReads(disc: Disc, track: nat, t: Tree)
    requires Formatted(disc, track, t)
    ensures Root(disc, track) == Extent(t.lba, t.len)
  {
    hide HoldsTree, RecordBytes;
    var s, r := disc(track + 16).value, Rec(SELF, true, t.lba, t.len);
    var u: Unread :| Writable(r, u) && s[156..156 + |RecordBytes(r, u)|] == RecordBytes(r, u);
    RecordReads(s, 156, r, u);
  }

  /** On a formatted disc every path leads to what it names in the tree, or to nothing if it names
      nothing; no search leaves the sector buffer. */
  lemma ResolveIsLookup(disc: Disc, track: nat, t: Tree, path: Name, wantDir: bool)
    requires Formatted(disc, track, t)
    ensures Resolve(disc, track, path, wantDir) ==
      match Lookup(Place(t, []), Components(path), NamesDirectory(path), wantDir)
      case None => Failed(ERR_NOFILE)
      case Some(found) => At(PhysicalSector(found.lba), found.len)
  {
    hide Describes, HoldsTree, Lookup, Follow, Components, NamesDirectory, Root;
    RootReads(disc, track, t);
    FollowIsLookup(disc, Place(t, []), Components(path), NamesDirectory(path), wantDir);
  }

  // ---------------------------------------------------------------- an empty disc

  const BLANK: Unread := Unread([0], Image.Zeros(4), Image.Zeros(4), Image.Zeros(7), 0, Image.Zeros(6), [])

  /** A sector with some bytes at `at`, and zeros elsewhere. */
  function SectorWith(front: seq<byte>, at: nat, b: seq<byte>): (s: Sector)
    requires |front| <= at && at + |b| < SECTOR
    ensures s[..|front|] == front && s[at..at + |b|] == b && s[at + |b|] == 0
  {
    var s := front + Image.Zeros(at - |front|) + b + Image.Zeros(SECTOR - at - |b|);
    assert s[..|front|] == front && s[at..at + |b|] == b;
    s
  }

  function EmptyDir(): seq<byte> {
    var r := DirRecs(Tree(20, SECTOR, []), Tree(20, SECTOR, []));
    RecordBytes(r[0], BLANK) + RecordBytes(r[1], BLANK)
  }

  /** A disc with nothing but an empty root directory in logical sector 20 of a track at sector 150. */
  function EmptyDisc(): Disc {
    n =>
      if n == 166 then Some(SectorWith(MAGIC, 156, RecordBytes(Rec(SELF, true, 20, SECTOR), BLANK)))
      else if n == 170 then Some(SectorWith([], 0, EmptyDir()))
      else None
  }

  /** It is laid out as it should be. */
  lemma EmptyDiscIsFormatted()
    ensures Formatted(EmptyDisc(), 150, Tree(20, SECTOR, []))
  {
    hide RecordBytes, SectorWith, AllBytes;
    var t, d := Tree(20, SECTOR, []), EmptyDir();
    var rs, us, s, v := DirRecs(t, t), [BLANK, BLANK], EmptyDisc()(170).value, EmptyDisc()(166).value;
    assert |rs| == 2 && rs[0] == Rec(SELF, true, 20, SECTOR) && rs[1] == Rec(PARENT, true, 20, SECTOR);
    assert AllWritable(rs, us);
    assert s == SectorWith([], 0, d) && v == SectorWith(MAGIC, 156, RecordBytes(rs[0], BLANK));
    assert s[0..|d|] == d && s[|d|] == 0;
    assert rs[..2] == rs && rs[2..] == [];
    assert AllBytes(rs, us) == EmptyDir() by {
      TwoRecords(rs, us);
    }
    assert Packed(s, 0, SECTOR, rs[..2], us);
    assert OnDisc(EmptyDisc(), 171, 0, rs[2..]);
    assert OnDisc(EmptyDisc(), 170, SECTOR, rs);
    assert v[..6] == MAGIC && Writable(rs[0], BLANK);
    assert Describes(v, t);
  }

  lemma TwoRecords(rs: seq<Rec>, us: seq<Unread>)
    requires AllWritable(rs, us) && |rs| == 2
    ensures AllBytes(rs, us) == RecordBytes(rs[0], us[0]) + RecordBytes(rs[1], us[1])
  {
    hide RecordBytes, Writable;
    var rs1, us1 := rs[1..], us[1..];
    assert AllBytes(rs1, us1) == RecordBytes(rs1[0], us1[0]) + [] by {
      assert AllBytes(rs1[1..], us1[1..]) == [];
    }
  }
}
