/** Finding files on an ISO 9660 disc: the search of directories, names with versions, and paths, for
    every disc, whatever it holds. */
module IsoDirs {
  import opened Bytes
  import opened IsoFiles

  type Name = seq<byte>

  const SEMICOLON: byte := 0x3B
  const SLASH: byte := 0x2F

  // ---------------------------------------------------------------- names

  /** A record's name is the wanted one, or continues it with a version. */
  predicate Matches(wanted: Name, rec: Name) {
    rec == wanted || (|rec| > |wanted| && rec[..|wanted|] == wanted && rec[|wanted|] == SEMICOLON)
  }

  /** The comparison with a record's name of which the buffer holds only `rec`, if `cut`: nothing when
      it comes to the end of the buffer. */
  function Compared(wanted: Name, rec: Name, cut: bool): Option<bool> {
    if cut && rec <= wanted then None else Some(Matches(wanted, rec))
  }

  method FnCompare(fn1: Name, fn2: Name, cut: bool) returns (r: Option<bool>)
    ensures r == Compared(fn1, fn2, cut)
  {
    var i := 0;
    while i < |fn2|
      invariant 0 <= i <= |fn2| && i <= |fn1| && fn1[..i] == fn2[..i]
    {
      if i == |fn1| {
        assert fn1[..i] == fn1;
        return Some(fn2[i] == SEMICOLON);
      }
      if fn1[i] != fn2[i] {
        assert |fn2| > |fn1| ==> fn2[..|fn1|][i] != fn1[i];
        return Some(false);
      }
      i := i + 1;
    }
    assert fn2[..i] == fn2;
    if cut {
      return None;
    }
    r := Some(i == |fn1|);
  }

  // ---------------------------------------------------------------- records

  datatype Rec = Rec(name: Name, isDir: bool, lba: nat, len: nat)

  function Be32(b: seq<byte>, at: nat): (n: nat)
    requires at + 4 <= |b|
    ensures n < WORD
  {
    ((b[at] as int * 256 + b[at + 1] as int) * 256 + b[at + 2] as int) * 256 + b[at + 3] as int
  }

  /** The record at `i` lies in the sector as far as it is looked at. */
  predicate Fits(s: Sector, i: nat) {
    i + 33 <= SECTOR && i + 33 + s[i + 32] as int <= SECTOR
  }

  function RecAt(s: Sector, i: nat): Rec
    requires Fits(s, i)
  {
    Rec(s[i + 33..i + 33 + s[i + 32] as int], s[i + 25] as int / 2 % 2 == 1, Be32(s, i + 6), Be32(s, i + 14))
  }

  /** The records of one sector from `i` on, up to a zero length, the end of the sector, or `limit`;
      nothing if one of them leaves the sector. */
  function Records(s: Sector, i: nat, limit: nat): Option<seq<Rec>>
    decreases SECTOR - i
  {
    if i >= SECTOR || i >= limit || s[i] == 0 then Some([])
    else if !Fits(s, i) then None
    else
      match Records(s, i + s[i] as int, limit)
      case None => None
      case Some(rs) => Some([RecAt(s, i)] + rs)
  }

  /** What is left of a directory behind its first sector. */
  function Left(len: nat): (r: nat)
    ensures len > 0 ==> r < len
  {
    if len > SECTOR then len - SECTOR else 0
  }

  /** The records of a directory: those of its sectors, one after the other. */
  function DirRecords(disc: Disc, sec: nat, len: nat): Option<seq<Rec>>
    decreases len
  {
    if len == 0 then Some([])
    else
      match disc(sec)
      case None => None
      case Some(s) =>
        match Records(s, 0, len)
        case None => None
        case Some(rs) =>
          match DirRecords(disc, sec + 1, Left(len))
          case None => None
          case Some(more) => Some(rs + more)
  }

  // ---------------------------------------------------------------- the search

  /** Where a search leads: to an extent, to an error, or to a read behind the sector buffer, after
      which the program means nothing any more. */
  datatype Where = At(sec: nat, len: nat) | Failed(code: int) | Overrun

  /** Lengths have 32 bits. */
  predicate Sized(w: Where) {
    w.At? ==> w.len < WORD
  }

  /** The extent of a record; 150 leads from the logical to the physical sector. */
  function Extent(lba: nat, len: nat): (w: Where)
    ensures w.At?
  {
    At((lba + 150) % WORD, len)
  }

  /** Looks at the record at `i`: first at its kind, then at its name, as far as that decides. */
  function Try(s: Sector, i: nat, isDir: bool, name: Name): (w: Where)
    requires i < SECTOR
    ensures Sized(w)
  {
    if i + 25 >= SECTOR then Overrun
    else if (s[i + 25] as int / 2 % 2 == 1) != isDir then Failed(ERR_NOFILE)
    else if i + 32 >= SECTOR then Overrun
    else
      var end := i + 33 + s[i + 32] as int;
      match Compared(name, s[i + 33..if end > SECTOR then SECTOR else end], end > SECTOR)
      case None => Overrun
      case Some(same) => if same then Extent(Be32(s, i + 6), Be32(s, i + 14)) else Failed(ERR_NOFILE)
  }

  /** The search of one sector from `i` on. */
  function SearchSector(s: Sector, i: nat, limit: nat, isDir: bool, name: Name): (w: Where)
    ensures Sized(w)
    decreases SECTOR - i
  {
    if i >= SECTOR || i >= limit || s[i] == 0 then Failed(ERR_NOFILE)
    else if Try(s, i, isDir, name).Failed? then SearchSector(s, i + s[i] as int, limit, isDir, name)
    else Try(s, i, isDir, name)
  }

  /** The search of a directory: an unreadable sector stops it. */
  function Search(disc: Disc, sec: nat, len: nat, isDir: bool, name: Name): (w: Where)
    ensures Sized(w)
    decreases len
  {
    if len == 0 then Failed(ERR_NOFILE)
    else
      match disc(sec)
      case None => Failed(ERR_SYSERR)
      case Some(s) =>
        if SearchSector(s, 0, len, isDir, name).Failed? then Search(disc, sec + 1, Left(len), isDir, name)
        else SearchSector(s, 0, len, isDir, name)
  }

  predicate Hit(r: Rec, isDir: bool, name: Name) {
    r.isDir == isDir && Matches(name, r.name)
  }

  function First(rs: seq<Rec>, isDir: bool, name: Name): Option<Rec> {
    if rs == [] then None
    else if Hit(rs[0], isDir, name) then Some(rs[0])
    else First(rs[1..], isDir, name)
  }

  lemma {:induction false} FirstAppend(a: seq<Rec>, b: seq<Rec>, isDir: bool, name: Name)
    ensures First(a + b, isDir, name) == if First(a, isDir, name).Some? then First(a, isDir, name) else First(b, isDir, name)
    decreases |a|
  {
    if a == [] {
      assert a + b == b;
    } else {
      assert (a + b)[1..] == a[1..] + b;
      FirstAppend(a[1..], b, isDir, name);
    }
  }

  /** The first record of the right kind. */
  lemma {:induction false} FirstIsFirst(rs: seq<Rec>, isDir: bool, name: Name)
    ensures match First(rs, isDir, name)
      case None => forall i :: 0 <= i < |rs| ==> !Hit(rs[i], isDir, name)
      case Some(r) => exists i :: 0 <= i < |rs| && rs[i] == r && Hit(r, isDir, name)
                                  && forall j :: 0 <= j < i ==> !Hit(rs[j], isDir, name)
    decreases |rs|
  {
    hide Hit;
    if rs != [] && !Hit(rs[0], isDir, name) {
      FirstIsFirst(rs[1..], isDir, name);
      match First(rs[1..], isDir, name)
      case None => assert forall i :: 0 < i < |rs| ==> rs[i] == rs[1..][i - 1];
      case Some(r) =>
        var i :| 0 <= i < |rs[1..]| && rs[1..][i] == r && Hit(r, isDir, name)
                 && forall j :: 0 <= j < i ==> !Hit(rs[1..][j], isDir, name);
        assert rs[i + 1] == r;
        assert forall j :: 0 < j < i + 1 ==> rs[j] == rs[1..][j - 1];
    }
  }

  function FoundOf(r: Option<Rec>): Where {
    match r
    case None => Failed(ERR_NOFILE)
    case Some(rec) => Extent(rec.lba, rec.len)
  }

  /** A record that lies in its sector is judged by its kind and name. */
  lemma TryFits(s: Sector, i: nat, isDir: bool, name: Name)
    requires i < SECTOR && Fits(s, i)
    ensures Try(s, i, isDir, name) ==
      if Hit(RecAt(s, i), isDir, name) then Extent(RecAt(s, i).lba, RecAt(s, i).len) else Failed(ERR_NOFILE)
  {
    hide Matches, Be32;
  }

  lemma {:induction false} SectorFinds(s: Sector, i: nat, limit: nat, isDir: bool, name: Name)
    requires Records(s, i, limit).Some?
    ensures SearchSector(s, i, limit, isDir, name) == FoundOf(First(Records(s, i, limit).value, isDir, name))
    decreases SECTOR - i
  {
    hide Try, Hit, RecAt;
    if i < SECTOR && i < limit && s[i] != 0 {
      TryFits(s, i, isDir, name);
      var rs := Records(s, i, limit).value;
      assert rs[0] == RecAt(s, i) && rs[1..] == Records(s, i + s[i] as int, limit).value;
      SectorFinds(s, i + s[i] as int, limit, isDir, name);
    }
  }

  /** In a directory whose records lie in their sectors, the search finds the first record of the right
      kind. */
  lemma {:induction false} SearchFinds(disc: Disc, sec: nat, len: nat, isDir: bool, name: Name)
    requires DirRecords(disc, sec, len).Some?
    ensures Search(disc, sec, len, isDir, name) == FoundOf(First(DirRecords(disc, sec, len).value, isDir, name))
    decreases len
  {
    hide Hit, Records, First, SearchSector;
    if len > 0 {
      var rs := Records(disc(sec).value, 0, len).value;
      SectorFinds(disc(sec).value, 0, len, isDir, name);
      SearchFinds(disc, sec + 1, Left(len), isDir, name);
      FirstAppend(rs, DirRecords(disc, sec + 1, Left(len)).value, isDir, name);
    } else {
      NoRecords(isDir, name);
    }
  }

  lemma NoRecords(isDir: bool, name: Name)
    ensures First([], isDir, name) == None
  {
  }

  /** Looks at one record. */
  method TryRecord(s: Sector, i: nat, isDir: bool, name: Name) returns (w: Where)
    requires i < SECTOR
    ensures w == Try(s, i, isDir, name)
  {
    hide Compared, Be32;
    if i + 25 >= SECTOR {
      return Overrun;
    }
    if (s[i + 25] as int / 2 % 2 == 1) != isDir {
      return Failed(ERR_NOFILE);
    }
    if i + 32 >= SECTOR {
      return Overrun;
    }
    var end := i + 33 + s[i + 32] as int;
    var same := FnCompare(name, s[i + 33..if end > SECTOR then SECTOR else end], end > SECTOR);
    match same
    case None => return Overrun;
    case Some(yes) =>
      if yes {
        w := Extent(Be32(s, i + 6), Be32(s, i + 14));
      } else {
        w := Failed(ERR_NOFILE);
      }
  }

  /** Finds a name in a directory, sector by sector. */
  method LowFind(disc: Disc, sec: nat, dirlen: nat, isDir: bool, name: Name) returns (w: Where)
    ensures w == Search(disc, sec, dirlen, isDir, name)
  {
    hide Try;
    var at: nat, left: nat := sec, dirlen;
    while left > 0
      invariant Search(disc, sec, dirlen, isDir, name) == Search(disc, at, left, isDir, name)
    {
      var s := disc(at);
      if s.None? {
        return Failed(ERR_SYSERR);
      }
      var i := 0;
      while i < SECTOR && i < left && s.value[i] != 0
        invariant 0 <= i
        invariant SearchSector(s.value, 0, left, isDir, name) == SearchSector(s.value, i, left, isDir, name)
        decreases SECTOR - i
      {
        w := TryRecord(s.value, i, isDir, name);
        if !w.Failed? {
          return;
        }
        i := i + s.value[i] as int;
      }
      at, left := at + 1, left - if left > SECTOR then SECTOR else left;
    }
    w := Failed(ERR_NOFILE);
  }

  // ---------------------------------------------------------------- paths

  /** The length of the part before the first slash. */
  function Head(path: Name): (n: nat)
    ensures n <= |path| && (n < |path| ==> path[n] == SLASH)
  {
    if path == [] || path[0] == SLASH then 0 else 1 + Head(path[1..])
  }

  /** The components of a path; empty ones do not count. */
  function Components(path: Name): seq<Name>
    decreases |path|
  {
    var n := Head(path);
    if n == |path| then (if path == [] then [] else [path])
    else (if n == 0 then [] else [path[..n]]) + Components(path[n + 1..])
  }

  /** A path that ends in a slash, or is empty, names a directory. */
  predicate NamesDirectory(path: Name) {
    path == [] || path[|path| - 1] == SLASH
  }

  /** Where the components lead from a directory: all but the last to directories, the last to an entry
      of the wanted kind. */
  function Follow(disc: Disc, sec: nat, len: nat, names: seq<Name>, slash: bool, wantDir: bool): (w: Where)
    ensures len < WORD ==> Sized(w)
    decreases |names|
  {
    if names == [] then (if wantDir then At(sec, len) else Failed(ERR_NOFILE))
    else
      var last := |names| == 1 && !slash;
      match Search(disc, sec, len, last ==> wantDir, names[0])
      case At(sec1, len1) => if last then At(sec1, len1) else Follow(disc, sec1, len1, names[1..], slash, wantDir)
      case Failed(code) => Failed(code)
      case Overrun => Overrun
  }

  method StrChr(path: Name) returns (p: nat)
    ensures p == Head(path)
  {
    p := 0;
    while p < |path| && path[p] != SLASH
      invariant 0 <= p <= |path| && Head(path) == p + Head(path[p..])
    {
      assert path[p..][1..] == path[p + 1..];
      p := p + 1;
    }
  }

  lemma CutDirectory(path: Name, n: nat)
    requires n < |path| && path[n] == SLASH
    ensures NamesDirectory(path[n + 1..]) <==> NamesDirectory(path)
  {
    var rest := path[n + 1..];
    if rest != [] {
      assert rest[|rest| - 1] == path[|path| - 1];
    }
  }

  lemma CutComponents(path: Name, n: nat)
    requires n == Head(path) < |path|
    ensures Components(path) == (if n == 0 then [] else [path[..n]]) + Components(path[n + 1..])
  {
    hide Head;
  }

  lemma HeadTail(path: Name)
    requires Head(path) < |path|
    ensures NamesDirectory(path[Head(path) + 1..]) <==> NamesDirectory(path)
    ensures Components(path) == (if Head(path) == 0 then [] else [path[..Head(path)]]) + Components(path[Head(path) + 1..])
    ensures Components(path[Head(path) + 1..]) == [] ==> NamesDirectory(path)
  {
    hide Head, Components, NamesDirectory;
    CutDirectory(path, Head(path));
    CutComponents(path, Head(path));
    NoComponents(path[Head(path) + 1..]);
  }

  lemma {:induction false} NoComponents(path: Name)
    ensures Components(path) == [] ==> NamesDirectory(path)
    decreases |path|
  {
    if Head(path) < |path| {
      NoComponents(path[Head(path) + 1..]);
    }
  }

  lemma LastHead(path: Name)
    requires Head(path) == |path|
    ensures Components(path) == (if path == [] then [] else [path])
    ensures path != [] ==> !NamesDirectory(path)
  {
    NoSlash(path);
  }

  lemma {:induction false} NoSlash(path: Name)
    requires Head(path) == |path|
    ensures forall i :: 0 <= i < |path| ==> path[i] != SLASH
    decreases |path|
  {
    if path != [] {
      NoSlash(path[1..]);
      assert forall i :: 0 < i < |path| ==> path[i] == path[1..][i - 1];
    }
  }

  lemma {:induction false} HeadIs(path: Name, n: nat)
    requires n <= |path| && (forall i :: 0 <= i < n ==> path[i] != SLASH) && (n < |path| ==> path[n] == SLASH)
    ensures Head(path) == n
    decreases n
  {
    if n > 0 {
      HeadIs(path[1..], n - 1);
    }
  }

  /** The components of two paths with a slash between them are those of the one and those of the other;
      a path without slashes is its own only component, and the empty path has none. */
  lemma {:induction false} ComponentsCat(a: Name, b: Name)
    ensures Components(a + [0x2F] + b) == Components(a) + Components(b)
    ensures 0x2F !in a ==> Components(a) == if a == [] then [] else [a]
    decreases |a|
  {
    hide Head, Components;
    var s, n := a + [0x2F] + b, Head(a);
    HeadFree(a);
    HeadIs(s, n);
    CutComponents(s, n);
    assert s[..n] == a[..n];
    if n == |a| {
      LastHead(a);
      assert s[n + 1..] == b && a[..n] == a;
    } else {
      CutComponents(a, n);
      assert s[n + 1..] == a[n + 1..] + [0x2F] + b;
      ComponentsCat(a[n + 1..], b);
      assert (if n == 0 then [] else [a[..n]]) + (Components(a[n + 1..]) + Components(b))
        == ((if n == 0 then [] else [a[..n]]) + Components(a[n + 1..])) + Components(b);
    }
  }

  lemma {:induction false} HeadFree(path: Name)
    ensures forall i :: 0 <= i < Head(path) ==> path[i] != SLASH
    decreases |path|
  {
    if path != [] && path[0] != SLASH {
      HeadFree(path[1..]);
      assert forall i :: 0 < i < |path| ==> path[i] == path[1..][i - 1];
    }
  }

  /** No component is empty or holds a slash. */
  lemma {:induction false} ComponentsClean(path: Name)
    ensures forall c :: c in Components(path) ==> c != [] && 0x2F !in c
    decreases |path|
  {
    var n := Head(path);
    HeadFree(path);
    assert path[..n] != [] || n == 0;
    assert 0x2F !in path[..n];
    if n < |path| {
      ComponentsClean(path[n + 1..]);
    } else {
      assert path[..n] == path;
    }
  }

  lemma FollowEnd(disc: Disc, sec: nat, len: nat, name: Name, wantDir: bool)
    ensures Follow(disc, sec, len, [name], false, wantDir) == Search(disc, sec, len, wantDir, name)
  {
    hide Search;
  }

  /** Follows the directories of a path, then looks for the file. */
  method FollowPath(disc: Disc, sec0: nat, len0: nat, path0: Name, wantDir: bool) returns (w: Where)
    ensures w == Follow(disc, sec0, len0, Components(path0), NamesDirectory(path0), wantDir)
  {
    hide Components, NamesDirectory, Search;
    var sec, len, path := sec0, len0, path0;
    var p := StrChr(path);
    while p < |path|
      invariant p == Head(path)
      invariant Follow(disc, sec0, len0, Components(path0), NamesDirectory(path0), wantDir)
        == Follow(disc, sec, len, Components(path), NamesDirectory(path), wantDir)
      decreases |path|
    {
      HeadTail(path);
      if p != 0 {
        assert Components(path)[0] == path[..p] && Components(path)[1..] == Components(path[p + 1..]);
        w := LowFind(disc, sec, len, true, path[..p]);
        if !w.At? {
          return;
        }
        sec, len := w.sec, w.len;
      } else {
        assert Components(path) == Components(path[p + 1..]);
      }
      path := path[p + 1..];
      p := StrChr(path);
    }
    LastHead(path);
    if path != [] {
      FollowEnd(disc, sec, len, path, wantDir);
      w := LowFind(disc, sec, len, wantDir, path);
    } else {
      w := if wantDir then At(sec, len) else Failed(ERR_NOFILE);
    }
  }

  // ---------------------------------------------------------------- opening

  const MAGIC: seq<byte> := [1, 0x43, 0x44, 0x30, 0x30, 0x31]

  /** The root directory, from the volume descriptor of the data track. */
  function Root(disc: Disc, track: nat): (w: Where)
    ensures Sized(w)
  {
    if track == 0 then Failed(ERR_DIRERR)
    else
      match disc(track + 16)
      case None => Failed(ERR_SYSERR)
      case Some(s) => if s[..6] != MAGIC then Failed(ERR_DIRERR) else Extent(Be32(s, 162), Be32(s, 170))
  }

  method FindRoot(disc: Disc, track: nat) returns (w: Where)
    ensures w == Root(disc, track)
  {
    if track == 0 {
      return Failed(ERR_DIRERR);
    }
    var s := disc(track + 16);
    if s.None? {
      return Failed(ERR_SYSERR);
    }
    if s.value[..6] != MAGIC {
      return Failed(ERR_DIRERR);
    }
    w := Extent(Be32(s.value, 162), Be32(s.value, 170));
  }

  /** Where a path leads from the root of the disc. */
  function Resolve(disc: Disc, track: nat, path: Name, wantDir: bool): (w: Where)
    ensures Sized(w)
  {
    match Root(disc, track)
    case At(sec, len) => Follow(disc, sec, len, Components(path), NamesDirectory(path), wantDir)
    case Failed(code) => Failed(code)
    case Overrun => Overrun
  }

  predicate Free(fh: seq<Handle>, i: nat) {
    i < |fh| && fh[i].sec0 == 0
  }

  /** Opens a path: the first free handle, at the extent where the path leads. */
  method Open(c: Cdfs, track: nat, path: Name, wantDir: bool) returns (fd: int, overrun: bool)
    requires c.Valid()
    modifies c`fh
    ensures c.Valid()
    ensures (forall i: nat :: !Free(old(c.fh), i)) ==> fd == ERR_NUMFILES && !overrun && c.fh == old(c.fh)
    ensures (exists i: nat :: Free(old(c.fh), i)) ==>
      match Resolve(c.disc, track, path, wantDir)
      case Overrun => overrun && c.fh == old(c.fh)
      case Failed(code) => !overrun && fd == code && c.fh == old(c.fh)
      case At(sec, len) =>
        && !overrun && 0 <= fd && Free(old(c.fh), fd) && (forall i: nat :: i < fd ==> !Free(old(c.fh), i))
        && c.fh == old(c.fh)[fd := Handle(sec, 0, len)]
  {
    hide Follow, Components, NamesDirectory, Root;
    fd, overrun := 0, false;
    while fd < MAX_OPEN_FILES && c.fh[fd].sec0 != 0
      invariant 0 <= fd <= MAX_OPEN_FILES && forall i: nat :: i < fd ==> !Free(c.fh, i)
    {
      fd := fd + 1;
    }
    if fd == MAX_OPEN_FILES {
      return ERR_NUMFILES, false;
    }
    assert Free(c.fh, fd);
    var w := FindRoot(c.disc, track);
    if w.At? {
      w := FollowPath(c.disc, w.sec, w.len, path, wantDir);
    }
    match w
    case Overrun => overrun := true;
    case Failed(code) => fd := code;
    case At(sec, len) => c.fh := c.fh[fd := Handle(sec, 0, len)];
  }
}
