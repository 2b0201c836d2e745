/**
 Directories of patch files: how the server walks the client from one to another, and what a client
 with a stack of directories makes of it.
 */
module PatchPaths {
  import opened Bytes

  // ---------------------------------------------------------------- paths

  /** The length of the run of slashes, or of other characters, at the start of `s`. */
  function Run(s: string, slashes: bool): (n: nat)
    ensures n <= |s|
  {
    if s == [] || (s[0] == '/') != slashes then 0 else 1 + Run(s[1..], slashes)
  }

  /** The components of a path; empty ones do not count. */
  function Tokens(s: string): seq<string>
    decreases |s|
  {
    var t := s[Run(s, true)..];
    var n := Run(t, false);
    if n == 0 then [] else [t[..n]] + Tokens(t[n..])
  }

  function LastSlash(s: string): (i: int)
    ensures -1 <= i < |s|
  {
    if s == [] then -1
    else if s[|s| - 1] == '/' then |s| - 1
    else LastSlash(s[..|s| - 1])
  }

  function DirName(f: string): string {
    if LastSlash(f) < 0 then "" else f[..LastSlash(f)]
  }

  function BaseName(f: string): string {
    f[LastSlash(f) + 1..]
  }

  lemma {:induction false} RunIs(s: string, slashes: bool, n: nat)
    requires n <= |s| && (forall i :: 0 <= i < n ==> (s[i] == '/') == slashes)
    requires n < |s| ==> (s[n] == '/') != slashes
    ensures Run(s, slashes) == n
    decreases n
  {
    if n > 0 {
      RunIs(s[1..], slashes, n - 1);
    }
  }

  lemma {:induction false} RunFacts(s: string, slashes: bool)
    ensures forall i :: 0 <= i < Run(s, slashes) ==> (s[i] == '/') == slashes
    ensures Run(s, slashes) < |s| ==> (s[Run(s, slashes)] == '/') != slashes
    decreases |s|
  {
    if s != [] && (s[0] == '/') == slashes {
      RunFacts(s[1..], slashes);
      assert forall i :: 0 < i < |s| ==> s[i] == s[1..][i - 1];
    }
  }

  /** Components depend on what stands behind the first slashes. */
  lemma TokensBehind(s: string, t: string)
    requires s[Run(s, true)..] == t[Run(t, true)..]
    ensures Tokens(s) == Tokens(t)
  {
    hide Run;
  }

  lemma RunLonger(s: string, k: nat)
    requires k <= |s| && forall i :: 0 <= i < k ==> s[i] == '/'
    ensures Run(s, true) == k + Run(s[k..], true)
    decreases k
  {
    if k > 0 {
      assert s[1..][k - 1..] == s[k..];
      RunLonger(s[1..], k - 1);
    }
  }

  /** Slashes in front do not count. */
  lemma SkipsSlashes(s: string, k: nat)
    requires k <= |s| && forall i :: 0 <= i < k ==> s[i] == '/'
    ensures Tokens(s) == Tokens(s[k..])
  {
    hide Run, Tokens;
    var t := s[k..];
    RunLonger(s, k);
    assert s[k + Run(t, true)..] == t[Run(t, true)..];
    TokensBehind(s, t);
  }

  /** A word in front, up to a slash or the end, is the first component. */
  lemma FirstWord(w: string, rest: string)
    requires w != "" && '/' !in w && (rest != "" ==> rest[0] == '/')
    ensures Tokens(w + rest) == [w] + Tokens(rest)
  {
    var s := w + rest;
    assert s[0] == w[0] != '/';
    RunIs(s, true, 0);
    RunIs(s, false, |w|);
    assert s[0..] == s && s[..|w|] == w && s[|w|..] == rest;
  }

  lemma NoTokensIn(s: string)
    requires forall i :: 0 <= i < |s| ==> s[i] == '/'
    ensures Tokens(s) == []
  {
    SkipsSlashes(s, |s|);
    assert s[|s|..] == "";
  }

  /** A path is some slashes, a word, and perhaps a slash and more. */
  lemma FirstOf(s: string) returns (k: nat, w: string, rest: string)
    ensures k <= |s| && (forall i :: 0 <= i < k ==> s[i] == '/') && s[k..] == w + rest
    ensures '/' !in w && (w == "" ==> rest == "") && (rest != "" ==> rest[0] == '/')
  {
    k := Run(s, true);
    RunFacts(s, true);
    var t := s[k..];
    RunFacts(t, false);
    var n := Run(t, false);
    w, rest := t[..n], t[n..];
    if t != "" {
      assert t[0] == s[k];
    }
  }

  lemma TokensOf(s: string, k: nat, w: string, rest: string)
    requires k <= |s| && (forall i :: 0 <= i < k ==> s[i] == '/') && s[k..] == w + rest
    requires w != "" && '/' !in w && (rest != "" ==> rest[0] == '/')
    ensures Tokens(s) == [w] + Tokens(rest)
  {
    hide Tokens;
    SkipsSlashes(s, k);
    FirstWord(w, rest);
  }

  /** The components of two paths with a slash between them are those of the one and those of the other;
      with the components of a single word this says what components are. */
  lemma {:induction false} TokensCat(a: string, b: string)
    ensures Tokens(a + "/" + b) == Tokens(a) + Tokens(b)
    decreases |a|
  {
    hide Tokens, Run;
    var s := a + "/" + b;
    var k, w, rest := FirstOf(a);
    assert forall i :: 0 <= i < |a| ==> s[i] == a[i];
    if w == "" {
      NoTokensIn(a);
      SkipsSlashes(s, |a| + 1);
      assert s[|a| + 1..] == b;
    } else {
      TokensOf(a, k, w, rest);
      assert s[k..] == a[k..] + "/" + b == w + (rest + "/" + b);
      TokensOf(s, k, w, rest + "/" + b);
      TokensCat(rest, b);
    }
  }

  lemma WordTokens(w: string)
    requires '/' !in w
    ensures Tokens(w) == if w == "" then [] else [w]
  {
    if w == "" {
      NoTokensIn(w);
    } else {
      FirstWord(w, "");
      NoTokensIn("");
      assert w + "" == w;
    }
  }

  /** The name is what stands behind the last slash, the directory what stands before it. */
  lemma {:induction false} NameSplits(f: string)
    ensures '/' !in BaseName(f)
    ensures '/' in f ==> f == DirName(f) + "/" + BaseName(f)
    ensures '/' !in f ==> DirName(f) == "" && BaseName(f) == f
    decreases |f|
  {
    if f != [] && f[|f| - 1] != '/' {
      var n := |f| - 1;
      NameSplits(f[..n]);
      assert f == f[..n] + [f[n]];
      assert BaseName(f) == BaseName(f[..n]) + [f[n]];
    }
  }

  /** So directory and name together are the path. */
  lemma PathTokens(f: string)
    ensures Tokens(f) == Tokens(DirName(f)) + if BaseName(f) == "" then [] else [BaseName(f)]
  {
    hide Tokens, DirName, BaseName;
    NameSplits(f);
    WordTokens(BaseName(f));
    if '/' in f {
      TokensCat(DirName(f), BaseName(f));
    } else {
      WordTokens("");
    }
  }

  /** The name in the directory is the path below the base. */
  predicate InPlace(base: seq<string>, dir: seq<string>, name: string, path: string) {
    '/' !in name && dir + (if name == "" then [] else [name]) == base + ["."] + Tokens(path)
  }

  lemma NameInPlace(base: seq<string>, path: string)
    ensures InPlace(base, base + ["."] + Tokens(DirName(path)), BaseName(path), path)
  {
    hide Tokens, DirName, BaseName;
    NameSplits(path);
    PathTokens(path);
    assert (base + ["."] + Tokens(DirName(path))) + (if BaseName(path) == "" then [] else [BaseName(path)])
      == base + ["."] + (Tokens(DirName(path)) + if BaseName(path) == "" then [] else [BaseName(path)]);
  }

  lemma TokenAt(s: string, pos: nat, a: nat, b: nat)
    requires pos <= a <= b <= |s|
    requires forall i :: pos <= i < a ==> s[i] == '/'
    requires forall i :: a <= i < b ==> s[i] != '/'
    requires (a < |s| ==> s[a] != '/') && (b < |s| ==> s[b] == '/')
    ensures Tokens(s[pos..]) == if a == b then [] else [s[a..b]] + Tokens(s[b..])
  {
    RunIs(s[pos..], true, a - pos);
    assert s[pos..][a - pos..] == s[a..];
    RunIs(s[a..], false, b - a);
    assert s[a..][..b - a] == s[a..b] && s[a..][b - a..] == s[b..];
  }

  /** The next component from position `pos` on. */
  method StrTok(s: string, pos: nat) returns (tok: Option<string>, next: nat)
    requires pos <= |s|
    ensures pos <= next <= |s| && (tok.Some? ==> pos < next)
    ensures Tokens(s[pos..]) == Rest(s, tok, next)
  {
    hide Tokens;
    var a := pos;
    while a < |s| && s[a] == '/'
      invariant pos <= a <= |s| && forall i :: pos <= i < a ==> s[i] == '/'
    {
      a := a + 1;
    }
    var b := a;
    while b < |s| && s[b] != '/'
      invariant a <= b <= |s| && forall i :: a <= i < b ==> s[i] != '/'
    {
      b := b + 1;
    }
    TokenAt(s, pos, a, b);
    if a == b {
      return None, a;
    }
    return Some(s[a..b]), b;
  }

  /** What a tokenizer that has given `tok` last still has to give. */
  function Rest(s: string, tok: Option<string>, next: nat): seq<string>
    requires next <= |s|
  {
    match tok
    case None => []
    case Some(t) => [t] + Tokens(s[next..])
  }

  // ---------------------------------------------------------------- packets and the client

  datatype Packet =
    | Chdir(dir: string)
    | DirUp
    | FileInfo(idx: nat, name: string)
    | InfoFinished
    | SendInfo(size: nat, files: nat)
    | FileSend(size: nat, name: string)
    | Data(num: nat, sum: nat, size: nat, payload: seq<byte>)
    | FileDone
    | SendDone

  predicate IsMove(p: Packet) {
    p.Chdir? || p.DirUp?
  }

  /** A directory command on a stack of directories; nothing if the client would leave the base. */
  function Move(stack: seq<string>, p: Packet): Option<seq<string>> {
    match p
    case Chdir(d) => Some(stack + [d])
    case DirUp => if stack == [] then None else Some(stack[..|stack| - 1])
    case _ => Some(stack)
  }

  function Walk(stack: seq<string>, ps: seq<Packet>): Option<seq<string>>
    decreases |ps|
  {
    if ps == [] then Some(stack)
    else
      match Move(stack, ps[0])
      case None => None
      case Some(next) => Walk(next, ps[1..])
  }

  lemma {:induction false} WalkAppend(stack: seq<string>, a: seq<Packet>, b: seq<Packet>)
    requires Walk(stack, a).Some?
    ensures Walk(stack, a + b) == Walk(Walk(stack, a).value, b)
    decreases |a|
  {
    if a == [] {
      assert a + b == b;
    } else {
      assert (a + b)[1..] == a[1..] + b;
      WalkAppend(Move(stack, a[0]).value, a[1..], b);
    }
  }

  // ---------------------------------------------------------------- from one directory to another

  function Lcp(a: seq<string>, b: seq<string>): (k: nat)
    ensures k <= |a| && k <= |b|
  {
    if a == [] || b == [] || a[0] != b[0] then 0 else 1 + Lcp(a[1..], b[1..])
  }

  function Ups(n: nat): (ps: seq<Packet>)
    ensures |ps| == n
  {
    seq(n, _ => DirUp)
  }

  function Downs(dirs: seq<string>): (ps: seq<Packet>)
    ensures |ps| == |dirs|
  {
    seq(|dirs|, i requires 0 <= i < |dirs| => Chdir(dirs[i]))
  }

  /** Up to the common ancestor, and down from there. */
  function Route(a: seq<string>, b: seq<string>): (ps: seq<Packet>)
    ensures |ps| == |a| + |b| - 2 * Lcp(a, b)
  {
    Ups(|a| - Lcp(a, b)) + Downs(b[Lcp(a, b)..])
  }

  lemma {:induction false} LcpPrefix(a: seq<string>, b: seq<string>)
    ensures a[..Lcp(a, b)] == b[..Lcp(a, b)]
    ensures Lcp(a, b) < |a| && Lcp(a, b) < |b| ==> a[Lcp(a, b)] != b[Lcp(a, b)]
    decreases |a|
  {
    if a != [] && b != [] && a[0] == b[0] {
      LcpPrefix(a[1..], b[1..]);
      var k := Lcp(a[1..], b[1..]);
      assert a[..k + 1] == [a[0]] + a[1..][..k];
      assert b[..k + 1] == [b[0]] + b[1..][..k];
    }
  }

  lemma {:induction false} WalkUps(stack: seq<string>, n: nat)
    requires n <= |stack|
    ensures Walk(stack, Ups(n)) == Some(stack[..|stack| - n])
    decreases n
  {
    if n > 0 {
      assert Ups(n)[1..] == Ups(n - 1);
      WalkUps(stack[..|stack| - 1], n - 1);
      assert stack[..|stack| - 1][..|stack| - n] == stack[..|stack| - n];
    } else {
      assert stack[..|stack|] == stack;
    }
  }

  lemma {:induction false} WalkDowns(stack: seq<string>, dirs: seq<string>)
    ensures Walk(stack, Downs(dirs)) == Some(stack + dirs)
    decreases |dirs|
  {
    if dirs != [] {
      assert Downs(dirs)[1..] == Downs(dirs[1..]);
      WalkDowns(stack + [dirs[0]], dirs[1..]);
      assert (stack + [dirs[0]]) + dirs[1..] == stack + dirs;
    } else {
      assert stack + dirs == stack;
    }
  }

  /** The route leads from `a` to `b` below any base, and never touches the base. */
  lemma RouteLeads(base: seq<string>, a: seq<string>, b: seq<string>)
    ensures Walk(base + a, Route(a, b)) == Some(base + b)
  {
    hide Walk, Lcp, Ups, Downs;
    var k := Lcp(a, b);
    LcpPrefix(a, b);
    WalkUps(base + a, |a| - k);
    assert (base + a)[..|base| + k] == base + b[..k];
    WalkAppend(base + a, Ups(|a| - k), Downs(b[k..]));
    WalkDowns(base + b[..k], b[k..]);
    assert (base + b[..k]) + b[k..] == base + b;
  }

  /** Distance between two directories. */
  function Distance(a: seq<string>, b: seq<string>): (d: nat) {
    |a| + |b| - 2 * Lcp(a, b)
  }

  lemma {:induction false} LcpSame(a: seq<string>)
    ensures Lcp(a, a) == |a|
  {
    if a != [] {
      LcpSame(a[1..]);
    }
  }

  /** Dropping the last component changes a common prefix by at most that component. */
  lemma {:induction false} LcpShorter(a: seq<string>, b: seq<string>)
    requires a != []
    ensures Lcp(a, b) - 1 <= Lcp(a[..|a| - 1], b) <= Lcp(a, b)
    ensures Lcp(a[..|a| - 1], b) != Lcp(a, b) ==> Lcp(a, b) == |a|
    decreases |a|
  {
    if b != [] && |a| > 1 && a[0] == b[0] {
      LcpShorter(a[1..], b[1..]);
      assert a[1..][..|a| - 2] == a[..|a| - 1][1..];
    }
  }

  lemma MoveShortens(stack: seq<string>, p: Packet, dst: seq<string>)
    requires Move(stack, p).Some?
    ensures Distance(stack, dst) <= Distance(Move(stack, p).value, dst) + 1
  {
    match p
    case Chdir(d) =>
      assert (stack + [d])[..|stack|] == stack;
      LcpShorter(stack + [d], dst);
    case DirUp => LcpShorter(stack, dst);
    case _ =>
  }

  /** No other commands get there sooner. */
  lemma {:induction false} RouteIsShortest(stack: seq<string>, dst: seq<string>, ps: seq<Packet>)
    requires Walk(stack, ps) == Some(dst)
    ensures |ps| >= Distance(stack, dst) == |Route(stack, dst)|
    decreases |ps|
  {
    if ps == [] {
      LcpSame(stack);
    } else {
      RouteIsShortest(Move(stack, ps[0]).value, dst, ps[1..]);
      MoveShortens(stack, ps[0], dst);
    }
  }

  // ---------------------------------------------------------------- the server's side

  /** The connection, with what has been sent on it. */
  class Wire {
    var sent: seq<Packet>

    constructor ()
      ensures sent == []
    {
      sent := [];
    }

    method SendSimple(p: Packet)
      modifies this
      ensures sent == old(sent) + [p]
    {
      sent := sent + [p];
    }

    method SendChdir(dir: string) returns (rv: int)
      modifies this
      ensures rv == if |dir| > 64 then -1 else 0
      ensures sent == old(sent) + if rv == 0 then [Chdir(dir)] else []
    {
      if |dir| > 64 {
        return -1;
      }
      sent := sent + [Chdir(dir)];
      rv := 0;
    }

    method SendFileInfo(idx: nat, name: string) returns (rv: int)
      modifies this
      ensures rv == if |name| > 32 then -1 else 0
      ensures sent == old(sent) + if rv == 0 then [FileInfo(idx % 0x1_0000_0000, name)] else []
    {
      if |name| > 32 {
        return -1;
      }
      sent := sent + [FileInfo(idx % 0x1_0000_0000, name)];
      rv := 0;
    }

    method SendFileSend(size: nat, name: string) returns (rv: int)
      modifies this
      ensures rv == if |name| > 48 then -1 else 0
      ensures sent == old(sent) + if rv == 0 then [FileSend(size, name)] else []
    {
      if |name| > 48 {
        return -1;
      }
      sent := sent + [FileSend(size, name)];
      rv := 0;
    }

    /** One command up for each component that is left of the current directory. */
    method GoUp(cur: string, t: Option<string>, d: nat)
      requires d <= |cur|
      modifies this
      ensures sent == old(sent) + Ups(|Rest(cur, t, d)|)
    {
      hide Tokens;
      var t1, d1 := t, d;
      ghost var n := 0;
      while t1.Some?
        invariant d1 <= |cur| && n + |Rest(cur, t1, d1)| == |Rest(cur, t, d)|
        invariant sent == old(sent) + Ups(n)
        decreases |cur| - d1, t1.Some?
      {
        SendSimple(DirUp);
        t1, d1 := StrTok(cur, d1);
        assert Ups(n) + [DirUp] == Ups(n + 1);
        n := n + 1;
      }
    }

    /** One command down for each component that is left of the destination. */
    method GoDown(dst: string, t: Option<string>, d: nat) returns (rv: int)
      requires d <= |dst|
      modifies this
      ensures rv == if AllFit(Rest(dst, t, d)) then 0 else -1
      ensures sent == old(sent) + Downs(Fitting(Rest(dst, t, d)))
    {
      hide Tokens, Downs, AllFit, Fitting, Rest;
      var t2, d2 := t, d;
      ghost var all, done: seq<string> := Rest(dst, t, d), [];
      NoneYet(sent, all);
      while t2.Some?
        invariant d2 <= |dst| && all == done + Rest(dst, t2, d2)
        invariant sent == old(sent) + Downs(done) && AllFit(done)
        decreases |dst| - d2, t2.Some?
      {
        var tok := t2.value;
        RestHead(dst, tok, d2);
        OneMoreDown(old(sent), all, done, Rest(dst, t2, d2));
        rv := SendChdir(tok);
        if rv != 0 {
          assert sent + [] == sent;
          return -1;
        }
        t2, d2 := StrTok(dst, d2);
        done := done + [tok];
      }
      RestNone(dst, d2);
      assert done + [] == done;
      AllFitting(done);
      rv := 0;
    }

    /** Takes the client from `cur` to `dst`. */
    method ChangeDirectory(cur: string, dst: string) returns (rv: int)
      modifies this
      ensures rv == if Passable(Tokens(cur), Tokens(dst)) then 0 else -1
      ensures sent == old(sent) + RouteSent(Tokens(cur), Tokens(dst))
      ensures rv == 0 ==> sent == old(sent) + Route(Tokens(cur), Tokens(dst))
    {
      hide Tokens, Lcp, Ups, Downs, Rest, AllFit, Fitting;
      WholeRouteSent(Tokens(cur), Tokens(dst));
      ghost var a, b := Tokens(cur), Tokens(dst);
      if cur == dst {
        LcpSame(a);
        NoWay(a);
        assert sent == sent + [];
        return 0;
      }
      assert cur[0..] == cur && dst[0..] == dst;
      var t1, d1, t2, d2 := SkipCommon(cur, dst);
      ghost var k := Lcp(a, b);
      ghost var was := sent;
      GoUp(cur, t1, d1);
      rv := GoDown(dst, t2, d2);
      assert (was + Ups(|a| - k)) + Downs(Fitting(b[k..])) == was + (Ups(|a| - k) + Downs(Fitting(b[k..])));
    }
  }

  lemma NoWay(a: seq<string>)
    requires Lcp(a, a) == |a|
    ensures Route(a, a) == [] && Passable(a, a)
  {
  }

  /** Leaves both tokenizers where the two paths differ. */
  method SkipCommon(cur: string, dst: string) returns (t1: Option<string>, d1: nat, t2: Option<string>, d2: nat)
    ensures d1 <= |cur| && d2 <= |dst|
    ensures var k := Lcp(Tokens(cur), Tokens(dst));
      Rest(cur, t1, d1) == Tokens(cur)[k..] && Rest(dst, t2, d2) == Tokens(dst)[k..]
  {
    hide Tokens;
    ghost var a, b := Tokens(cur), Tokens(dst);
    assert cur[0..] == cur && dst[0..] == dst;
    t1, d1 := StrTok(cur, 0);
    t2, d2 := StrTok(dst, 0);
    ghost var k := 0;
    while t1.Some? && t2.Some? && t1 == t2
      invariant d1 <= |cur| && d2 <= |dst| && k <= |a| && k <= |b|
      invariant Rest(cur, t1, d1) == a[k..] && Rest(dst, t2, d2) == b[k..]
      invariant Lcp(a, b) == k + Lcp(a[k..], b[k..])
      decreases |cur| - d1, t1.Some?
    {
      assert a[k..][1..] == a[k + 1..] && b[k..][1..] == b[k + 1..];
      t1, d1 := StrTok(cur, d1);
      t2, d2 := StrTok(dst, d2);
      k := k + 1;
    }
    assert k == Lcp(a, b);
  }

  /** The names up to the first that does not fit its packet. */
  function Fitting(dirs: seq<string>): (r: seq<string>)
    ensures r <= dirs
  {
    if dirs == [] || |dirs[0]| > 64 then [] else [dirs[0]] + Fitting(dirs[1..])
  }

  lemma {:induction false} AllFitting(dirs: seq<string>)
    ensures Fitting(dirs) == dirs <==> AllFit(dirs)
    ensures AllFit(Fitting(dirs))
    decreases |dirs|
  {
    if dirs != [] {
      AllFitting(dirs[1..]);
      assert dirs == [dirs[0]] + dirs[1..];
      assert AllFit(dirs) ==> AllFit(dirs[1..]) by {
        assert forall i :: 0 <= i < |dirs| - 1 ==> dirs[1..][i] == dirs[i + 1];
      }
    }
  }

  lemma {:induction false} FittingAppend(a: seq<string>, b: seq<string>)
    requires AllFit(a)
    ensures Fitting(a + b) == a + Fitting(b)
    decreases |a|
  {
    if a == [] {
      assert a + b == b;
    } else {
      assert (a + b)[1..] == a[1..] + b;
      FittingAppend(a[1..], b);
    }
  }

  lemma NoneYet(was: seq<Packet>, all: seq<string>)
    ensures was == was + Downs([]) && AllFit([]) && all == [] + all
  {
    assert Downs([]) == [];
  }

  lemma RestHead(s: string, tok: string, next: nat)
    requires next <= |s|
    ensures Rest(s, Some(tok), next) == [tok] + Tokens(s[next..])
  {
  }

  lemma RestNone(s: string, next: nat)
    requires next <= |s|
    ensures Rest(s, None, next) == []
  {
  }

  /** One more command down, if its name fits. */
  lemma OneMoreDown(was: seq<Packet>, all: seq<string>, done: seq<string>, rest: seq<string>)
    requires all == done + rest && rest != [] && AllFit(done)
    ensures all == (done + [rest[0]]) + rest[1..]
    ensures (was + Downs(done)) + [Chdir(rest[0])] == was + Downs(done + [rest[0]])
    ensures |rest[0]| <= 64 ==> AllFit(done + [rest[0]])
    ensures |rest[0]| > 64 ==> !AllFit(all) && Fitting(all) == done
  {
    hide Downs, Fitting, AllFit;
    var tok := rest[0];
    FittingAppend(done, rest);
    StopsHere(done, rest);
    if |tok| <= 64 {
      FitSnoc(done, tok);
    }
    DownsSnoc(done, tok);
    assert all == (done + [tok]) + rest[1..];
    assert (was + Downs(done)) + [Chdir(tok)] == was + (Downs(done) + [Chdir(tok)]);
  }

  lemma FitSnoc(done: seq<string>, tok: string)
    requires AllFit(done) && |tok| <= 64
    ensures AllFit(done + [tok])
  {
  }

  lemma StopsHere(done: seq<string>, rest: seq<string>)
    requires rest != []
    ensures |rest[0]| > 64 ==> done + Fitting(rest) == done && !AllFit(done + rest)
  {
    assert (done + rest)[|done|] == rest[0];
  }

  lemma DownsSnoc(done: seq<string>, tok: string)
    ensures Downs(done + [tok]) == Downs(done) + [Chdir(tok)]
  {
  }

  /** The commands that are sent: all of the route up to a name that does not fit. */
  function RouteSent(a: seq<string>, b: seq<string>): seq<Packet> {
    Ups(|a| - Lcp(a, b)) + Downs(Fitting(b[Lcp(a, b)..]))
  }

  lemma WholeRouteSent(a: seq<string>, b: seq<string>)
    ensures RouteSent(a, b) == Route(a, b) <==> Passable(a, b)
  {
    hide Lcp, Ups, Fitting;
    var down := b[Lcp(a, b)..];
    AllFitting(down);
    if |Fitting(down)| == |down| {
      assert Fitting(down) == down;
    } else {
      assert |RouteSent(a, b)| < |Route(a, b)|;
    }
  }

  predicate AllFit(dirs: seq<string>) {
    forall i :: 0 <= i < |dirs| ==> |dirs[i]| <= 64
  }

  /** All directories on the way down have names that fit. */
  predicate Passable(a: seq<string>, b: seq<string>) {
    AllFit(b[Lcp(a, b)..])
  }
}
