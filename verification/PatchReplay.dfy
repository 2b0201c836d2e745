/** What a client makes of a transfer: every file in its place, whole, in the order of the queue. */
module PatchReplay {
  import opened Bytes
  import opened PatchPaths
  import opened PatchList
  import opened PatchServer
  import opened PatchTransfer

  // ---------------------------------------------------------------- a client

  /** The file that is being received. */
  datatype Open = Open(name: string, size: nat, bytes: seq<byte>, chunks: nat)

  datatype Received = Received(dir: seq<string>, name: string, size: nat, bytes: seq<byte>)

  datatype Client = Client(dir: seq<string>, open: Option<Open>, got: seq<Received>, over: bool)

  /** One packet; nothing if the client would have to refuse it: a file inside a file, a chunk out of
      order or with the wrong checksum, or a step above its base. */
  function Accept(env: Env, c: Client, p: Packet): Option<Client> {
    match p
    case Chdir(_) => Moved(c, p)
    case DirUp => Moved(c, p)
    case SendInfo(_, _) => Some(c)
    case FileSend(size, name) => if c.open.Some? then None else Some(c.(open := Some(Open(name, size, [], 0))))
    case Data(num, sum, size, payload) =>
      if c.open.None? || num != c.open.value.chunks || size > |payload| || sum != env.sum(payload[..size]) then None
      else
        var o := c.open.value;
        Some(c.(open := Some(o.(bytes := o.bytes + payload[..size], chunks := num + 1))))
    case FileDone =>
      if c.open.None? then None
      else
        var o := c.open.value;
        Some(c.(open := None, got := c.got + [Received(c.dir, o.name, o.size, o.bytes)]))
    case SendDone => if c.open.Some? then None else Some(c.(over := true))
    case _ => None
  }

  function Moved(c: Client, p: Packet): Option<Client> {
    if c.open.Some? then None
    else
      match Move(c.dir, p)
      case None => None
      case Some(d) => Some(c.(dir := d))
  }

  function Play(env: Env, c: Client, ps: seq<Packet>): Option<Client>
    decreases |ps|
  {
    if ps == [] then Some(c)
    else
      match Accept(env, c, ps[0])
      case None => None
      case Some(next) => Play(env, next, ps[1..])
  }

  lemma {:induction false} PlayAppend(env: Env, c: Client, a: seq<Packet>, b: seq<Packet>)
    requires Play(env, c, a).Some?
    ensures Play(env, c, a + b) == Play(env, Play(env, c, a).value, b)
    decreases |a|
  {
    hide Accept;
    if a == [] {
      assert a + b == b;
    } else {
      assert (a + b)[1..] == a[1..] + b;
      PlayAppend(env, Accept(env, c, a[0]).value, a[1..], b);
    }
  }

  lemma PlayOne(env: Env, c: Client, p: Packet)
    ensures Play(env, c, [p]) == Accept(env, c, p)
  {
    hide Accept;
    assert [p][1..] == [];
    if Accept(env, c, p).Some? {
      assert Play(env, Accept(env, c, p).value, []) == Some(Accept(env, c, p).value);
    }
  }

  lemma {:induction false} PlayMoves(env: Env, c: Client, ps: seq<Packet>)
    requires c.open == None && Walk(c.dir, ps).Some? && forall i :: 0 <= i < |ps| ==> IsMove(ps[i])
    ensures Play(env, c, ps) == Some(c.(dir := Walk(c.dir, ps).value))
    decreases |ps|
  {
    if ps != [] {
      assert IsMove(ps[0]);
      PlayMoves(env, c.(dir := Move(c.dir, ps[0]).value), ps[1..]);
    }
  }

  // ---------------------------------------------------------------- one file

  function Min(a: nat, b: nat): nat {
    if a <= b then a else b
  }

  lemma PieceGrows(content: seq<byte>, k: nat)
    ensures content[..Min(k * CHUNK_MAX, |content|)] + Piece(content, k * CHUNK_MAX)
      == content[..Min((k + 1) * CHUNK_MAX, |content|)]
  {
  }

  lemma AcceptsChunk(env: Env, c: Client, content: seq<byte>, k: nat)
    requires c.open.Some? && c.open.value.chunks == k && c.open.value.bytes == content[..Min(k * CHUNK_MAX, |content|)]
    ensures Accept(env, c, DataPacket(env, content, k, k * CHUNK_MAX)) ==
      Some(c.(open := Some(c.open.value.(bytes := content[..Min((k + 1) * CHUNK_MAX, |content|)], chunks := k + 1))))
  {
    hide Piece, Min;
    PieceGrows(content, k);
    var p := Piece(content, k * CHUNK_MAX);
    var z := Zeroes((4 - |p| % 4) % 4);
    assert (p + z)[..|p|] == p;
  }

  /** In-order chunks make up the file. */
  lemma {:induction false} PlayChunks(env: Env, c: Client, name: string, size: nat, content: seq<byte>, k: nat)
    requires c.open == Some(Open(name, size, [], 0))
    ensures Play(env, c, ChunkPackets(env, content, k))
      == Some(c.(open := Some(Open(name, size, content[..Min(k * CHUNK_MAX, |content|)], k))))
    decreases k
  {
    hide DataPacket, Accept;
    if k == 0 {
      assert content[..Min(0, |content|)] == [];
    } else {
      PlayChunks(env, c, name, size, content, k - 1);
      var mid := c.(open := Some(Open(name, size, content[..Min((k - 1) * CHUNK_MAX, |content|)], k - 1)));
      AcceptsChunk(env, mid, content, k - 1);
      PlayOne(env, mid, DataPacket(env, content, k - 1, (k - 1) * CHUNK_MAX));
      PlayAppend(env, c, ChunkPackets(env, content, k - 1), [DataPacket(env, content, k - 1, (k - 1) * CHUNK_MAX)]);
    }
  }

  function Whole(env: Env, dir: seq<string>, f: CFile): Received {
    Received(dir, BaseName(f.file.filename), f.ent.size, Content(env, f))
  }

  lemma PlayFile(env: Env, c: Client, f: CFile)
    requires c.open == None
    ensures Play(env, c, FilePackets(env, f)) == Some(c.(got := c.got + [Whole(env, c.dir, f)]))
  {
    hide ChunkPackets, BaseName, Content;
    var content, name := Content(env, f), BaseName(f.file.filename);
    var k := Chunks(|content|);
    var a, b := [FileSend(f.ent.size, name)], ChunkPackets(env, content, k);
    var c1 := c.(open := Some(Open(name, f.ent.size, [], 0)));
    PlayOne(env, c, FileSend(f.ent.size, name));
    PlayChunks(env, c1, name, f.ent.size, content, k);
    assert content[..Min(k * CHUNK_MAX, |content|)] == content by {
      AllChunks(content);
    }
    var c2 := c.(open := Some(Open(name, f.ent.size, content, k)));
    PlayAppend(env, c, a, b);
    PlayOne(env, c2, FileDone);
    PlayAppend(env, c, a + b, [FileDone]);
  }

  lemma AllChunks(content: seq<byte>)
    ensures content[..Min(Chunks(|content|) * CHUNK_MAX, |content|)] == content
  {
    assert (|content| / CHUNK_MAX + 1) * CHUNK_MAX > |content|;
  }

  // ---------------------------------------------------------------- the whole transfer

  function AllReceived(env: Env, base: seq<string>, files: seq<CFile>): seq<Received> {
    if files == [] then []
    else [Whole(env, base + ["."] + Dir(files[0].file.filename), files[0])] + AllReceived(env, base, files[1..])
  }

  /** The client has the whole file under its name in its directory. */
  predicate Arrived(env: Env, base: seq<string>, f: CFile, r: Received) {
    && InPlace(base, r.dir, r.name, f.file.filename)
    && r.size == f.ent.size && env.disk(f.ent.filename) == Some(r.bytes)
  }

  predicate AllArrived(env: Env, base: seq<string>, files: seq<CFile>, got: seq<Received>) {
    |got| == |files| && forall i :: 0 <= i < |files| ==> Arrived(env, base, files[i], got[i])
  }

  lemma {:induction false} ReceivedArrived(env: Env, base: seq<string>, files: seq<CFile>)
    requires AllSendable(env, files)
    ensures AllArrived(env, base, files, AllReceived(env, base, files))
    decreases |files|
  {
    hide InPlace, BaseName, DirName, Tokens;
    if files != [] {
      assert Sendable(env, files[0]);
      NameInPlace(base, files[0].file.filename);
      ReceivedArrived(env, base, files[1..]);
      var got, rest := AllReceived(env, base, files), AllReceived(env, base, files[1..]);
      forall i | 0 < i < |files|
        ensures Arrived(env, base, files[i], got[i])
      {
        assert Arrived(env, base, files[1..][i - 1], rest[i - 1]);
      }
    }
  }

  lemma PlayRoute(env: Env, c: Client, base: seq<string>, a: seq<string>, b: seq<string>)
    requires c.open == None && c.dir == base + a
    ensures Play(env, c, Route(a, b)) == Some(c.(dir := base + b))
  {
    hide Walk, Route, Lcp;
    RouteLeads(base, a, b);
    RouteMoves(a, b);
    PlayMoves(env, c, Route(a, b));
  }

  lemma PlayEnd(env: Env, c: Client, base: seq<string>, dir: seq<string>)
    requires c.open == None && c.dir == base + ["."] + dir
    ensures Play(env, c, Route(dir, []) + [DirUp] + [SendDone]) == Some(c.(dir := base, over := true))
  {
    hide Route, Play;
    PlayRoute(env, c, base + ["."], dir, []);
    assert base + ["."] + [] == base + ["."] && (base + ["."])[..|base|] == base;
    var c1 := c.(dir := base + ["."]);
    PlayOne(env, c1, DirUp);
    PlayAppend(env, c, Route(dir, []), [DirUp]);
    PlayOne(env, c.(dir := base), SendDone);
    PlayAppend(env, c, Route(dir, []) + [DirUp], [SendDone]);
  }

  lemma {:induction false} PlayTransfer(env: Env, c: Client, base: seq<string>, dir: seq<string>, files: seq<CFile>)
    requires c.open == None && c.dir == base + ["."] + dir
    ensures Play(env, c, Transfer(env, dir, files))
      == Some(Client(base, None, c.got + AllReceived(env, base, files), true))
    decreases |files|
  {
    hide Route, Play, FilePackets, Dir, Whole;
    if files == [] {
      PlayEnd(env, c, base, dir);
      assert c.got + [] == c.got;
    } else {
      var f := files[0];
      var there := base + ["."] + Dir(f.file.filename);
      PlayRoute(env, c, base + ["."], dir, Dir(f.file.filename));
      var c1 := c.(dir := there);
      PlayFile(env, c1, f);
      PlayAppend(env, c, Route(dir, Dir(f.file.filename)), FilePackets(env, f));
      var c2 := c1.(got := c.got + [Whole(env, there, f)]);
      PlayTransfer(env, c2, base, Dir(f.file.filename), files[1..]);
      PlayAppend(env, c, Route(dir, Dir(f.file.filename)) + FilePackets(env, f),
                 Transfer(env, Dir(f.file.filename), files[1..]));
      assert (c.got + [Whole(env, there, f)]) + AllReceived(env, base, files[1..]) == c.got + AllReceived(env, base, files);
    }
  }

  /** From the queue to the client: a run of the server on sendable files, replayed on a client,
      leaves the client with every file of the queue, in order and whole, in the file's directory, and
      back in its base directory. */
  lemma QueueArrives(env: Env, files: seq<CFile>, base: seq<string>)
    requires files != [] && AllNamesFit(files) && AllSendable(env, files)
    ensures var end := After(env, Srv(files, 0, 0, 0, []), 2 + Steps(env, files));
      var c := if end.Ok? then Play(env, Client(base, None, [], false), end.value.sent) else None;
      c.Some? && c.value == Client(base, None, c.value.got, true) && AllArrived(env, base, files, c.value.got)
  {
    hide After, Steps, Transfer, Play, AllNamesFit, AllSendable, Total, AllReceived, AllArrived;
    ReceivedArrived(env, base, files);
    TransferRuns(env, files, []);
    var info, dot := SendInfo(Total(files) % WORD, |files| % WORD), Chdir(".");
    var c := Client(base, None, [], false);
    var t := Transfer(env, [], files);
    assert [] + [info] + [dot] + t == ([info] + [dot]) + t;
    PlayOne(env, c, info);
    PlayAppend(env, c, [info], [dot]);
    PlayOne(env, c, dot);
    var c1 := c.(dir := base + ["."]);
    assert base + ["."] + [] == base + ["."];
    PlayTransfer(env, c1, base, [], files);
    PlayAppend(env, c, [info] + [dot], t);
    assert [] + AllReceived(env, base, files) == AllReceived(env, base, files);
  }
}
