/** Reading files off a disc of 2048-byte sectors, by whole sectors where possible. */
module IsoFiles {
  import opened Bytes

  const WORD: nat := 0x1_0000_0000
  const SECTOR: nat := 2048

  const ERR_SYSERR: int := -1
  const ERR_DIRERR: int := -2
  const ERR_NOFILE: int := -3
  const ERR_PARAM: int := -4
  const ERR_NUMFILES: int := -5

  type Sector = s: seq<byte> | |s| == 2048 witness seq(2048, _ => 0)

  /** What the drive returns for a sector number; nothing for a sector that cannot be read. */
  type Disc = nat -> Option<Sector>

  /** An open file: its first sector (0 for a free handle), the read position, and the length. */
  datatype Handle = Handle(sec0: nat, loc: nat, len: nat)

  /** `num` sectors in a row. */
  function Sectors(disc: Disc, sec: nat, num: nat): (r: Option<seq<byte>>)
    ensures r.Some? ==> |r.value| == SECTOR * num
  {
    if num == 0 then Some([])
    else
      match Sectors(disc, sec, num - 1)
      case None => None
      case Some(b) =>
        match disc(sec + num - 1)
        case None => None
        case Some(s) => Some(b + s)
  }

  function Joined(a: Option<seq<byte>>, b: Option<seq<byte>>): Option<seq<byte>> {
    if a.None? || b.None? then None else Some(a.value + b.value)
  }

  /** A part of one sector. */
  function OneSector(disc: Disc, h: Handle, n: nat, off: nat): Option<seq<byte>>
    requires off % SECTOR + n <= SECTOR
  {
    match disc(h.sec0 + off / SECTOR)
    case None => None
    case Some(s) => Some(s[off % SECTOR..off % SECTOR + n])
  }

  /** The read is cut at the end of the file, in 32 bits. */
  function Shortened(h: Handle, n: nat, off: nat): nat
    requires off < h.len
  {
    if (off + n) % WORD > h.len then h.len - off else n
  }

  lemma ShortenedFits(h: Handle, n: nat, off: nat)
    requires off < h.len && n < WORD && h.len < WORD
    ensures Shortened(h, n, off) <= n && (n > 0 ==> Shortened(h, n, off) > 0)
    ensures off + n < WORD ==> Shortened(h, n, off) == if off + n > h.len then h.len - off else n
    ensures off + n >= WORD ==> Shortened(h, n, off) == n
  {
    if off + n >= WORD {
      assert (off + n) % WORD == off + n - WORD;
    }
  }

  /** The bytes that a read stores: whole sectors first, then the rest, which may take two reads. */
  function Stored(disc: Disc, h: Handle, n: nat, off: nat): (r: Option<seq<byte>>)
    requires n < WORD && off < WORD && h.len < WORD
    ensures r.Some? ==> |r.value| <= n && (off < h.len && n > 0 ==> |r.value| > 0)
    decreases n
  {
    if off >= h.len then Some([])
    else
      ShortenedFits(h, n, off);
      var m := Shortened(h, n, off);
      if m >= SECTOR && off % SECTOR == 0 then
        Joined(Sectors(disc, h.sec0 + off / SECTOR, m / SECTOR),
               if m % SECTOR == 0 then Some([]) else OneSector(disc, h, m % SECTOR, AfterWhole(off, m)))
      else if m == 0 then Some([])
      else if off % SECTOR + m > SECTOR then
        match Stored(disc, h, SECTOR - off % SECTOR, off)
        case None => None
        case Some(b) => Joined(Some(b), Stored(disc, h, m - |b|, (off + |b|) % WORD))
      else OneSector(disc, h, m, off)
  }

  /** The position behind the whole sectors: a sector boundary again. */
  function AfterWhole(off: nat, m: nat): (r: nat)
    requires off % SECTOR == 0 && off < WORD
    ensures r % SECTOR == 0 && r < WORD
  {
    WordOfSectors(off / SECTOR + m / SECTOR);
    (off + m / SECTOR * SECTOR) % WORD
  }

  lemma AfterWholeIs(off: nat, m: nat)
    requires off % SECTOR == 0 && off + m < WORD
    ensures AfterWhole(off, m) == off + SECTOR * (m / SECTOR)
  {
  }

  lemma WordOfSectors(k: nat)
    ensures (SECTOR * k) % WORD % SECTOR == 0
  {
    var q := SECTOR * k / WORD;
    assert (SECTOR * k) % WORD == SECTOR * (k - 0x20_0000 * q);
  }

  // ---------------------------------------------------------------- when a read is right

  /** The whole file, when its sectors can be read: `b` starts with it. */
  ghost predicate Holds(disc: Disc, h: Handle, b: seq<byte>) {
    |b| % SECTOR == 0 && |b| >= h.len && Sectors(disc, h.sec0, |b| / SECTOR) == Some(b)
  }

  lemma {:induction false} SectorsSlice(disc: Disc, sec: nat, n: nat, b: seq<byte>, a: nat, k: nat)
    requires Sectors(disc, sec, n) == Some(b) && a + k <= n
    ensures SECTOR * a <= SECTOR * (a + k) <= |b|
    ensures Sectors(disc, sec + a, k) == Some(b[SECTOR * a..SECTOR * (a + k)])
    decreases n, k
  {
    if a + k < n {
      var c := Sectors(disc, sec, n - 1).value;
      SectorsSlice(disc, sec, n - 1, c, a, k);
      assert b[SECTOR * a..SECTOR * (a + k)] == c[SECTOR * a..SECTOR * (a + k)];
    } else if k > 0 {
      SectorsSlice(disc, sec, n, b, a, k - 1);
      var s := disc(sec + n - 1).value;
      assert b[SECTOR * (n - 1)..SECTOR * n] == s;
      assert b[SECTOR * a..SECTOR * (a + k - 1)] + b[SECTOR * (n - 1)..SECTOR * n] == b[SECTOR * a..SECTOR * n];
    } else {
      assert b[SECTOR * a..SECTOR * a] == [];
    }
  }

  lemma SectorOf(disc: Disc, h: Handle, b: seq<byte>, n: nat, off: nat)
    requires Holds(disc, h, b) && off % SECTOR + n <= SECTOR && off < |b|
    ensures off + n <= |b| && OneSector(disc, h, n, off) == Some(b[off..off + n])
  {
    hide Sectors;
    var a := off / SECTOR;
    assert off == SECTOR * a + off % SECTOR;
    SectorsSlice(disc, h.sec0, |b| / SECTOR, b, a, 1);
    JustOne(disc, h.sec0 + a);
    assert b[SECTOR * a..SECTOR * (a + 1)][off % SECTOR..off % SECTOR + n] == b[off..off + n];
  }

  /** The three ways to read, once. */
  lemma StoredIs(disc: Disc, h: Handle, n: nat, off: nat)
    requires n < WORD && off < h.len < WORD
    ensures var m := Shortened(h, n, off);
      && m <= n
      && (m >= SECTOR && off % SECTOR == 0 ==>
        Stored(disc, h, n, off) ==
          Joined(Sectors(disc, h.sec0 + off / SECTOR, m / SECTOR),
                 if m % SECTOR == 0 then Some([]) else OneSector(disc, h, m % SECTOR, AfterWhole(off, m))))
      && (m == 0 ==> Stored(disc, h, n, off) == Some([]))
      && (m > 0 && off % SECTOR + m <= SECTOR && (m < SECTOR || off % SECTOR != 0) ==>
        Stored(disc, h, n, off) == OneSector(disc, h, m, off))
  {
    hide Sectors, OneSector, AfterWhole;
    ShortenedFits(h, n, off);
  }

  lemma StoredInTwo(disc: Disc, h: Handle, n: nat, off: nat)
    requires n < WORD && off < h.len < WORD
    requires off % SECTOR != 0 && off % SECTOR + Shortened(h, n, off) > SECTOR
    ensures var m := Shortened(h, n, off);
      var first := Stored(disc, h, SECTOR - off % SECTOR, off);
      && m <= n && (first.Some? ==> |first.value| <= SECTOR - off % SECTOR)
      && Stored(disc, h, n, off) ==
        if first.None? then None else Joined(first, Stored(disc, h, m - |first.value|, (off + |first.value|) % WORD))
  {
    hide Sectors, OneSector, AfterWhole;
    ShortenedFits(h, n, off);
  }

  /** What a read should store: the file from the position on, as far as asked and as far as it goes. */
  function Wanted(h: Handle, b: seq<byte>, n: nat, off: nat): seq<byte>
    requires |b| >= h.len
  {
    if off >= h.len then [] else if off + n > h.len then b[off..h.len] else b[off..off + n]
  }

  lemma WholeThenRest(disc: Disc, h: Handle, b: seq<byte>, m: nat, off: nat)
    requires Holds(disc, h, b) && off % SECTOR == 0 && off + m <= h.len < WORD && m >= SECTOR
    ensures Joined(Sectors(disc, h.sec0 + off / SECTOR, m / SECTOR),
                   if m % SECTOR == 0 then Some([]) else OneSector(disc, h, m % SECTOR, AfterWhole(off, m)))
      == Some(b[off..off + m])
  {
    hide Sectors, OneSector, AfterWhole;
    AfterWholeIs(off, m);
    var a, k, r := off / SECTOR, m / SECTOR, m % SECTOR;
    assert off == SECTOR * a && m == SECTOR * k + r;
    assert |b| == SECTOR * (|b| / SECTOR);
    SectorsSlice(disc, h.sec0, |b| / SECTOR, b, a, k);
    var w := SECTOR * (a + k);
    assert w == off + SECTOR * k == AfterWhole(off, m);
    if r > 0 {
      SectorOf(disc, h, b, r, w);
      assert b[off..w] + b[w..w + r] == b[off..off + m];
    } else {
      assert b[off..w] + [] == b[off..off + m];
    }
  }

  lemma BehindTheEnd(disc: Disc, h: Handle, n: nat, off: nat)
    requires n < WORD && off < WORD && h.len < WORD && off >= h.len
    ensures Stored(disc, h, n, off) == Some([])
  {
  }

  lemma TwoParts(disc: Disc, h: Handle, b: seq<byte>, n: nat, off: nat)
    requires n < WORD && off < h.len < WORD && off % SECTOR != 0 && off % SECTOR + Shortened(h, n, off) > SECTOR
    requires off + Shortened(h, n, off) <= |b| && off + Shortened(h, n, off) < WORD && Shortened(h, n, off) <= n
    requires var k, m := SECTOR - off % SECTOR, Shortened(h, n, off);
      && Stored(disc, h, k, off) == Some(b[off..off + k])
      && Stored(disc, h, m - k, off + k) == Some(b[off + k..off + m])
    ensures Stored(disc, h, n, off) == Some(b[off..off + Shortened(h, n, off)])
  {
    hide Stored, Shortened;
    var k, m := SECTOR - off % SECTOR, Shortened(h, n, off);
    StoredInTwo(disc, h, n, off);
    assert (off + k) % WORD == off + k;
    assert b[off..off + k] + b[off + k..off + m] == b[off..off + m];
  }

  /** Without wrapping around, a read stores exactly the bytes of the file. */
  lemma {:induction false} StoredIsWanted(disc: Disc, h: Handle, b: seq<byte>, n: nat, off: nat)
    requires Holds(disc, h, b) && n < WORD && off < WORD && h.len < WORD
    requires off >= h.len || off + n < WORD
    ensures Stored(disc, h, n, off) == Some(Wanted(h, b, n, off))
    decreases n
  {
    hide Sectors, OneSector, AfterWhole, Stored;
    if off >= h.len {
      BehindTheEnd(disc, h, n, off);
    } else {
      ShortenedFits(h, n, off);
      StoredIs(disc, h, n, off);
      var m := Shortened(h, n, off);
      assert Wanted(h, b, n, off) == b[off..off + m];
      if m >= SECTOR && off % SECTOR == 0 {
        WholeThenRest(disc, h, b, m, off);
      } else if off % SECTOR + m > SECTOR {
        var k := SECTOR - off % SECTOR;
        StoredIsWanted(disc, h, b, k, off);
        assert Wanted(h, b, k, off) == b[off..off + k];
        StoredIsWanted(disc, h, b, m - k, off + k);
        assert Wanted(h, b, m - k, off + k) == b[off + k..off + m];
        TwoParts(disc, h, b, n, off);
      } else {
        SectorOf(disc, h, b, m, off);
      }
    }
  }

  /** The end of the sector that `off` is in. */
  function SectorEnd(off: nat): nat {
    off - off % SECTOR + SECTOR
  }

  /** A wrapped read from a sector boundary is not cut at the end of the file. */
  lemma WrapsAligned(disc: Disc, h: Handle, n: nat, off: nat)
    requires off < h.len < WORD && n < WORD && off % SECTOR == 0 && off + n >= WORD
    ensures Stored(disc, h, n, off).Some? ==> |Stored(disc, h, n, off).value| > h.len - off
  {
    hide Sectors, OneSector, AfterWhole;
    ShortenedFits(h, n, off);
    var left := WORD - off;
    assert left % SECTOR == 0 && left >= SECTOR;
    assert n / SECTOR >= left / SECTOR;
    assert SECTOR * (n / SECTOR) >= left;
  }

  lemma WrapsInLastSector(disc: Disc, h: Handle, n: nat, off: nat)
    requires off < h.len < WORD && n < WORD && off % SECTOR != 0 && off + n >= WORD && SectorEnd(off) >= WORD
    ensures Stored(disc, h, n, off).Some? ==> |Stored(disc, h, n, off).value| > h.len - off
  {
    hide Sectors, AfterWhole;
    ShortenedFits(h, n, off);
    var k := SECTOR - off % SECTOR;
    assert off + k == WORD;
    ShortenedFits(h, k, off);
    if n > k {
      assert Stored(disc, h, k, off) == OneSector(disc, h, k, off);
    }
  }

  lemma WrapsLater(disc: Disc, h: Handle, b: seq<byte>, n: nat, off: nat)
    requires Holds(disc, h, b) && off < h.len < WORD && n < WORD && off % SECTOR != 0 && off + n >= WORD
    requires SectorEnd(off) < WORD
    ensures Stored(disc, h, n, off) == Some(Wanted(h, b, n, off)) <==> h.len <= SectorEnd(off)
  {
    hide Sectors, OneSector, AfterWhole, Holds, Stored;
    ShortenedFits(h, n, off);
    StoredInTwo(disc, h, n, off);
    var k := SECTOR - off % SECTOR;
    StoredIsWanted(disc, h, b, k, off);
    HoldsLength(disc, h, b);
    if h.len <= SectorEnd(off) {
      assert Wanted(h, b, k, off) == b[off..h.len];
      BehindTheEnd(disc, h, n - (h.len - off), h.len);
      assert b[off..h.len] + [] == Wanted(h, b, n, off);
    } else {
      assert SectorEnd(off) % SECTOR == 0;
      WrapsAligned(disc, h, n - k, SectorEnd(off));
    }
  }

  lemma HoldsLength(disc: Disc, h: Handle, b: seq<byte>)
    requires Holds(disc, h, b)
    ensures |b| >= h.len
  {
  }

  /** A read stores exactly the file's bytes if and only if it starts behind the end, or its end does
      not wrap around in 32 bits, or the rest of the file lies in the sector that it starts inside. */
  lemma ReadIsRight(disc: Disc, h: Handle, b: seq<byte>, n: nat, off: nat)
    requires Holds(disc, h, b) && n < WORD && off < WORD && h.len < WORD
    ensures Stored(disc, h, n, off) == Some(Wanted(h, b, n, off)) <==>
      off >= h.len || off + n < WORD || (off % SECTOR != 0 && h.len <= SectorEnd(off) < WORD)
  {
    hide Stored, Holds;
    HoldsLength(disc, h, b);
    if off >= h.len || off + n < WORD {
      StoredIsWanted(disc, h, b, n, off);
    } else if off % SECTOR == 0 {
      WrapsAligned(disc, h, n, off);
    } else if SectorEnd(off) < WORD {
      WrapsLater(disc, h, b, n, off);
    } else {
      WrapsInLastSector(disc, h, n, off);
    }
  }

  // ---------------------------------------------------------------- the library

  const MAX_OPEN_FILES: nat := 8

  class Cdfs {
    const disc: Disc
    var fh: seq<Handle>
    var sectorBuffer: seq<byte>

    constructor (disc: Disc)
      ensures this.disc == disc && Valid() && forall i :: 0 <= i < |fh| ==> fh[i].sec0 == 0
    {
      this.disc := disc;
      fh, sectorBuffer := seq(MAX_OPEN_FILES, _ => Handle(0, 0, 0)), [];
    }

    ghost predicate Valid()
      reads this
    {
      |fh| == MAX_OPEN_FILES && forall i :: 0 <= i < |fh| ==> fh[i].loc < WORD && fh[i].len < WORD
    }

    predicate Open(fd: int)
      reads this
    {
      0 <= fd < |fh| && fh[fd].sec0 != 0
    }

    /** Reads `num` sectors in a row. */
    method ReadSectors(sec: nat, num: nat) returns (rv: int, buf: seq<byte>)
      ensures match Sectors(disc, sec, num)
              case None => rv == ERR_SYSERR
              case Some(b) => rv == 0 && buf == b
    {
      buf := [];
      for i := 0 to num
        invariant Sectors(disc, sec, i) == Some(buf)
      {
        var s := disc(sec + i);
        if s.None? {
          NoSectors(disc, sec, i + 1, num);
          return ERR_SYSERR, buf;
        }
        buf := buf + s.value;
      }
      rv := 0;
    }

    /** Reads one sector and copies the relevant part. */
    method ReadPart(h: Handle, n: nat, off: nat) returns (rv: int, buf: seq<byte>)
      requires off % SECTOR + n <= SECTOR
      modifies this`sectorBuffer
      ensures match OneSector(disc, h, n, off)
              case None => rv == ERR_SYSERR
              case Some(b) => rv == 0 && buf == b
    {
      buf := [];
      JustOne(disc, h.sec0 + off / SECTOR);
      var sector;
      rv, sector := ReadSectors(h.sec0 + off / SECTOR, 1);
      if rv == 0 {
        sectorBuffer := sector;
        buf := sectorBuffer[off % SECTOR..off % SECTOR + n];
      }
    }

    /** Reads at a position: whole sectors straight into the buffer, parts by way of the sector buffer. */
    method Pread(fd: int, nbyte: nat, offset: nat) returns (rv: int, buf: seq<byte>)
      requires Valid() && nbyte < WORD && offset < WORD
      modifies this`sectorBuffer
      ensures !Open(fd) ==> rv == ERR_PARAM
      ensures Open(fd) ==>
        match Stored(disc, fh[fd], nbyte, offset)
        case None => rv == ERR_SYSERR
        case Some(b) => rv == |b| && buf == b
      decreases nbyte
    {
      hide Sectors, Stored, OneSector, AfterWhole;
      buf := [];
      if !(0 <= fd < MAX_OPEN_FILES) || fh[fd].sec0 == 0 {
        return ERR_PARAM, buf;
      }
      var h := fh[fd];
      if offset >= h.len {
        BehindTheEnd(disc, h, nbyte, offset);
        return 0, buf;
      }
      ShortenedFits(h, nbyte, offset);
      StoredIs(disc, h, nbyte, offset);
      var left := if (offset + nbyte) % WORD > h.len then h.len - offset else nbyte;
      var off := offset;
      if left >= SECTOR && off % SECTOR == 0 {
        rv, buf := ReadSectors(h.sec0 + off / SECTOR, left / SECTOR);
        if rv != 0 {
          return;
        }
        off, left := AfterWhole(off, left), left % SECTOR;
        assert buf + [] == buf;
      }
      if left == 0 {
        return |buf|, buf;
      }
      var rest;
      if off % SECTOR + left > SECTOR {
        StoredInTwo(disc, h, nbyte, offset);
        rv, buf := Pread(fd, SECTOR - off % SECTOR, off);
        if rv < 0 {
          return;
        }
        rv, rest := Pread(fd, left - rv, (off + rv) % WORD);
        if rv < 0 {
          return;
        }
        buf := buf + rest;
      } else {
        rv, rest := ReadPart(h, left, off);
        if rv != 0 {
          return;
        }
        assert [] + rest == rest;
        buf := buf + rest;
      }
      rv := |buf|;
    }

    /** Reads at the handle's position, which moves on. */
    method Read(fd: int, nbyte: nat) returns (rv: int, buf: seq<byte>)
      requires Valid() && nbyte < WORD
      modifies this
      ensures Valid()
      ensures !old(Open(fd)) ==> rv == ERR_PARAM && fh == old(fh)
      ensures old(Open(fd)) ==>
        var h := old(fh[fd]);
        match Stored(disc, h, nbyte, h.loc)
        case None => rv == ERR_SYSERR && fh == old(fh)
        case Some(b) => rv == |b| && buf == b && fh == old(fh)[fd := h.(loc := (h.loc + |b|) % WORD)]
    {
      hide Stored;
      buf := [];
      if !(0 <= fd < MAX_OPEN_FILES) || fh[fd].sec0 == 0 {
        return ERR_PARAM, buf;
      }
      rv, buf := Pread(fd, nbyte, fh[fd].loc);
      if rv > 0 {
        fh := fh[fd := fh[fd].(loc := (fh[fd].loc + rv) % WORD)];
      } else if rv == 0 {
        assert fh[fd := fh[fd].(loc := (fh[fd].loc + |buf|) % WORD)] == fh;
      }
    }

    /** The loader's loop: reads of 2048 bytes until one returns nothing. */
    method LoadBinary(fd: int, ghost b: seq<byte>) returns (bin: seq<byte>)
      requires Valid() && Open(fd) && Holds(disc, fh[fd], b) && fh[fd].loc == 0 && fh[fd].len + SECTOR < WORD
      modifies this
      ensures bin == b[..old(fh[fd].len)]
      ensures fh == old(fh)[fd := old(fh[fd]).(loc := old(fh[fd].len))]
    {
      hide Stored, Sectors;
      bin := [];
      var more := true;
      ghost var h := fh[fd];
      while more
        invariant Valid() && |bin| <= h.len && fh == old(fh)[fd := h.(loc := |bin|)]
        invariant bin == b[..|bin|] && (!more ==> |bin| == h.len)
        decreases h.len - |bin|, more
      {
        ghost var g := h.(loc := |bin|);
        SameFile(disc, h, g, b, 2048, |bin|);
        StoredIsWanted(disc, g, b, 2048, |bin|);
        var rsz, piece := Read(fd, 2048);
        if rsz > 0 {
          bin := bin + piece;
        } else {
          more := false;
        }
      }
    }
  }

  lemma SameFile(disc: Disc, h: Handle, g: Handle, b: seq<byte>, n: nat, off: nat)
    requires Holds(disc, h, b) && g == h.(loc := g.loc)
    ensures Holds(disc, g, b)
  {
  }

  lemma JustOne(disc: Disc, sec: nat)
    ensures Sectors(disc, sec, 1) == match disc(sec) { case None => None case Some(s) => Some(s) }
  {
    assert Sectors(disc, sec, 0) == Some([]);
    if disc(sec).Some? {
      assert [] + disc(sec).value == disc(sec).value;
    }
  }

  lemma {:induction false} NoSectors(disc: Disc, sec: nat, i: nat, num: nat)
    requires i <= num && Sectors(disc, sec, i).None?
    ensures Sectors(disc, sec, num).None?
    decreases num
  {
    if i < num {
      NoSectors(disc, sec, i, num - 1);
    }
  }
}
