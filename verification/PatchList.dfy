/** The list of files that the server asks a client about, replayed on a client with a stack of
    directories. */
module PatchList {
  import opened Bytes
  import opened PatchPaths

  // ---------------------------------------------------------------- what the client understands

  /** A file that the client is asked about, and the directory that it is in at that moment. */
  datatype Seen = Seen(idx: nat, name: string, dir: seq<string>)

  function Asked(stack: seq<string>, ps: seq<Packet>): seq<Seen>
    requires Walk(stack, ps).Some?
    decreases |ps|
  {
    if ps == [] then []
    else
      (if ps[0].FileInfo? then [Seen(ps[0].idx, ps[0].name, stack)] else [])
      + Asked(Move(stack, ps[0]).value, ps[1..])
  }

  lemma {:induction false} AskedAppend(stack: seq<string>, a: seq<Packet>, b: seq<Packet>)
    requires Walk(stack, a).Some? && Walk(Walk(stack, a).value, b).Some?
    ensures Walk(stack, a + b).Some?
    ensures Asked(stack, a + b) == Asked(stack, a) + Asked(Walk(stack, a).value, b)
    decreases |a|
  {
    WalkAppend(stack, a, b);
    if a == [] {
      assert a + b == b;
    } else {
      assert (a + b)[1..] == a[1..] + b;
      AskedAppend(Move(stack, a[0]).value, a[1..], b);
    }
  }

  lemma {:induction false} MovesAskNothing(stack: seq<string>, ps: seq<Packet>)
    requires Walk(stack, ps).Some? && forall i :: 0 <= i < |ps| ==> IsMove(ps[i])
    ensures Asked(stack, ps) == []
    decreases |ps|
  {
    if ps != [] {
      MovesAskNothing(Move(stack, ps[0]).value, ps[1..]);
    }
  }

  lemma RouteMoves(a: seq<string>, b: seq<string>)
    ensures forall i :: 0 <= i < |Route(a, b)| ==> IsMove(Route(a, b)[i])
  {
    hide Lcp;
  }

  // ---------------------------------------------------------------- what the server sends

  function Dir(f: string): seq<string> {
    Tokens(DirName(f))
  }

  /** The packets for the files up to `n`, behind the first change of directory. */
  function Announced(files: seq<string>, n: nat): seq<Packet>
    requires n <= |files|
  {
    if n == 0 then [Chdir(".")]
    else
      Announced(files, n - 1)
      + Route(Here(files, n - 1), Dir(files[n - 1]))
      + [FileInfo((n - 1) % 0x1_0000_0000, BaseName(files[n - 1]))]
  }

  /** Where the client is after `n` files, below its base. */
  function Here(files: seq<string>, n: nat): seq<string>
    requires n <= |files|
  {
    if n == 0 then [] else Dir(files[n - 1])
  }

  function ListPackets(files: seq<string>): seq<Packet> {
    Announced(files, |files|) + Route(Here(files, |files|), []) + [DirUp, InfoFinished]
  }

  function Expected(base: seq<string>, files: seq<string>, n: nat): seq<Seen>
    requires n <= |files|
  {
    seq(n, i requires 0 <= i < n => Seen(i % 0x1_0000_0000, BaseName(files[i]), base + ["."] + Dir(files[i])))
  }

  lemma Stay(stack: seq<string>, p: Packet)
    requires !IsMove(p)
    ensures Walk(stack, [p]) == Some(stack)
    ensures Asked(stack, [p]) == if p.FileInfo? then [Seen(p.idx, p.name, stack)] else []
  {
    assert [p][1..] == [];
    assert Walk(stack, []) == Some(stack);
    assert Asked(stack, []) == [];
  }

  lemma {:induction false} AnnouncedReplays(base: seq<string>, files: seq<string>, n: nat)
    requires n <= |files|
    ensures Walk(base, Announced(files, n)) == Some(base + ["."] + Here(files, n))
    ensures Asked(base, Announced(files, n)) == Expected(base, files, n)
    decreases n
  {
    hide Route, Tokens, BaseName, DirName, Lcp, Walk, Asked, Expected;
    if n == 0 {
      FirstChdir(base);
      NoneExpected(base, files);
    } else {
      AnnouncedReplays(base, files, n - 1);
      var a, b := Announced(files, n - 1), Route(Here(files, n - 1), Dir(files[n - 1]));
      var p := FileInfo((n - 1) % 0x1_0000_0000, BaseName(files[n - 1]));
      var here, there := base + ["."] + Here(files, n - 1), base + ["."] + Dir(files[n - 1]);
      RouteLeads(base + ["."], Here(files, n - 1), Dir(files[n - 1]));
      RouteMoves(Here(files, n - 1), Dir(files[n - 1]));
      MovesAskNothing(here, b);
      WalkAppend(base, a, b);
      AskedAppend(base, a, b);
      Stay(there, p);
      WalkAppend(base, a + b, [p]);
      AskedAppend(base, a + b, [p]);
      OneMore(base, files, n);
    }
  }

  lemma OneMore(base: seq<string>, files: seq<string>, n: nat)
    requires 0 < n <= |files|
    ensures Expected(base, files, n) == Expected(base, files, n - 1)
      + [Seen((n - 1) % 0x1_0000_0000, BaseName(files[n - 1]), base + ["."] + Dir(files[n - 1]))]
  {
    hide BaseName, Dir;
  }

  lemma NoneExpected(base: seq<string>, files: seq<string>)
    ensures Expected(base, files, 0) == []
  {
  }

  lemma FirstChdir(base: seq<string>)
    ensures Walk(base, [Chdir(".")]) == Some(base + ["."] + []) && Asked(base, [Chdir(".")]) == []
  {
    assert [Chdir(".")][1..] == [];
    assert Walk(base + ["."], []) == Some(base + ["."]);
    assert Asked(base + ["."], []) == [];
    assert base + ["."] + [] == base + ["."];
  }

  /** Each file is asked about by its number, and by its name in its directory. */
  predicate AskedInPlace(base: seq<string>, files: seq<string>, seen: seq<Seen>) {
    && |seen| == |files|
    && forall i :: 0 <= i < |files| ==>
         seen[i].idx == i % 0x1_0000_0000 && InPlace(base, seen[i].dir, seen[i].name, files[i])
  }

  lemma ExpectedInPlace(base: seq<string>, files: seq<string>)
    ensures AskedInPlace(base, files, Expected(base, files, |files|))
  {
    hide Tokens, DirName, BaseName, InPlace;
    forall i | 0 <= i < |files|
      ensures var s := Expected(base, files, |files|)[i]; InPlace(base, s.dir, s.name, files[i])
    {
      NameInPlace(base, files[i]);
    }
  }

  /** A client that replays the list is in each file's own directory when it is asked about the file,
      is asked about all files in order, never leaves its base, and ends there. */
  lemma ListReplays(base: seq<string>, files: seq<string>)
    ensures Walk(base, ListPackets(files)) == Some(base)
    ensures AskedInPlace(base, files, Asked(base, ListPackets(files)))
  {
    hide Route, Announced, Here, Lcp, Walk, Asked, Expected, AskedInPlace;
    ExpectedInPlace(base, files);
    var n := |files|;
    var a, b, c := Announced(files, n), Route(Here(files, n), []), [DirUp, InfoFinished];
    AnnouncedReplays(base, files, n);
    RouteLeads(base + ["."], Here(files, n), []);
    RouteMoves(Here(files, n), []);
    MovesAskNothing(base + ["."] + Here(files, n), b);
    WalkAppend(base, a, b);
    AskedAppend(base, a, b);
    assert base + ["."] + [] == base + ["."];
    LastUp(base);
    WalkAppend(base, a + b, c);
    AskedAppend(base, a + b, c);
    assert Asked(base, ListPackets(files)) == Expected(base, files, n);
  }

  lemma LastUp(base: seq<string>)
    ensures Walk(base + ["."], [DirUp, InfoFinished]) == Some(base)
    ensures Asked(base + ["."], [DirUp, InfoFinished]) == []
  {
    assert [DirUp, InfoFinished][1..] == [InfoFinished];
    assert (base + ["."])[..|base|] == base;
    Stay(base, InfoFinished);
  }

  // ---------------------------------------------------------------- names that fit

  predicate FileFits(f: string) {
    AllFit(Dir(f)) && |BaseName(f)| <= 32
  }

  predicate ListFits(files: seq<string>) {
    forall i :: 0 <= i < |files| ==> FileFits(files[i])
  }

  /** The first file from `n` on that does not fit its packets. */
  function FirstUnfit(files: seq<string>, n: nat): (i: nat)
    requires n <= |files|
    ensures n <= i <= |files| && (i < |files| ==> !FileFits(files[i]))
    ensures forall j :: n <= j < i ==> FileFits(files[j])
    decreases |files| - n
  {
    if n == |files| || !FileFits(files[n]) then n else FirstUnfit(files, n + 1)
  }

  /** On the way from a directory that fits, only new components can fail to. */
  lemma PassableFits(a: seq<string>, b: seq<string>)
    requires AllFit(a)
    ensures Passable(a, b) <==> AllFit(b)
  {
    LcpPrefix(a, b);
    var k := Lcp(a, b);
    forall i | 0 <= i < k
      ensures |b[i]| <= 64
    {
      assert b[i] == b[..k][i] == a[..k][i] == a[i];
    }
    if Passable(a, b) {
      forall i | k <= i < |b|
        ensures |b[i]| <= 64
      {
        assert b[i] == b[k..][i - k];
      }
    }
  }

  // ---------------------------------------------------------------- the server

  /** The last slash: the directory is what comes before it. */
  method Split(f: string) returns (dir: string, bn: string)
    ensures dir == DirName(f) && bn == BaseName(f)
  {
    var i := |f|;
    assert f[..|f|] == f;
    while i > 0 && f[i - 1] != '/'
      invariant 0 <= i <= |f| && LastSlash(f) == LastSlash(f[..i])
    {
      assert f[..i][..i - 1] == f[..i - 1];
      i := i - 1;
    }
    if i == 0 {
      assert LastSlash(f[..0]) == -1;
      assert f[0..] == f;
      return "", f;
    }
    return f[..i - 1], f[i..];
  }

  method SendFileList(c: Wire, files: seq<string>) returns (rv: int)
    modifies c
    ensures rv == 0 <==> ListFits(files)
    ensures rv == 0 ==> c.sent == old(c.sent) + ListPackets(files)
    ensures rv != 0 ==>
      var i := FirstUnfit(files, 0);
      && i < |files| && rv == (if AllFit(Dir(files[i])) then -2 else -3)
      && c.sent == old(c.sent) + Announced(files, i) + RouteSent(Here(files, i), Dir(files[i]))
  {
    hide Tokens, DirName, BaseName, Route, RouteSent, Lcp, AllFit, Passable;
    rv := c.SendChdir(".");
    var dir := "";
    ghost var was := old(c.sent);
    NoTokens();
    for filenum := 0 to |files|
      invariant Tokens(dir) == Here(files, filenum) && AllFit(Tokens(dir))
      invariant forall i :: 0 <= i < filenum ==> FileFits(files[i])
      invariant FirstUnfit(files, 0) == FirstUnfit(files, filenum)
      invariant c.sent == was + Announced(files, filenum)
    {
      var f := files[filenum];
      var dir2, bn := Split(f);
      PassableFits(Tokens(dir), Tokens(dir2));
      WholeRouteSent(Tokens(dir), Tokens(dir2));
      rv := c.ChangeDirectory(dir, dir2);
      if rv != 0 {
        return -3;
      }
      rv := c.SendFileInfo(filenum, bn);
      if rv != 0 {
        return -2;
      }
      AnnouncedOne(was, files, filenum);
      dir := dir2;
    }
    PassableFits(Tokens(dir), []);
    rv := c.ChangeDirectory(dir, "");
    if rv != 0 {
      assert false;
    }
    c.SendSimple(DirUp);
    c.SendSimple(InfoFinished);
    AnnouncedAll(was, files);
    rv := 0;
  }

  lemma NoTokens()
    ensures Tokens("") == [] && AllFit([])
  {
  }

  lemma AnnouncedOne(was: seq<Packet>, files: seq<string>, n: nat)
    requires n < |files|
    ensures ((was + Announced(files, n)) + Route(Here(files, n), Dir(files[n])))
      + [FileInfo(n % 0x1_0000_0000, BaseName(files[n]))] == was + Announced(files, n + 1)
  {
    hide Route, Dir, BaseName, Here;
  }

  lemma AnnouncedAll(was: seq<Packet>, files: seq<string>)
    ensures ((was + Announced(files, |files|)) + Route(Here(files, |files|), [])) + [DirUp] + [InfoFinished]
      == was + ListPackets(files)
  {
    hide Route, Announced, Here;
    Regrouped(was, Announced(files, |files|), Route(Here(files, |files|), []), DirUp, InfoFinished);
  }

  lemma Regrouped(w: seq<Packet>, a: seq<Packet>, b: seq<Packet>, x: Packet, y: Packet)
    ensures ((w + a) + b) + [x] + [y] == w + (a + b + [x, y])
  {
  }
}
