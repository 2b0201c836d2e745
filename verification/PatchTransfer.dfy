/** Whole transfers: what a run of list-done packets sends, how many it takes, and what a client makes
    of it. */
module PatchTransfer {
  import opened Bytes
  import opened PatchPaths
  import opened PatchList
  import opened PatchConfig
  import opened PatchServer

  // ---------------------------------------------------------------- files that can be sent

  /** A chunk that is not full ends the file, so there must be one. */
  predicate Sendable(env: Env, f: CFile) {
    match env.disk(f.ent.filename)
    case None => false
    case Some(content) => |content| % CHUNK_MAX != 0
  }

  predicate NamesFit(f: CFile) {
    AllFit(Dir(f.file.filename)) && |BaseName(f.file.filename)| <= 48
  }

  predicate AllNamesFit(files: seq<CFile>) {
    forall i :: 0 <= i < |files| ==> NamesFit(files[i])
  }

  predicate AllSendable(env: Env, files: seq<CFile>) {
    forall i :: 0 <= i < |files| ==> Sendable(env, files[i])
  }

  /** The chunks of a file, the last of them not full. */
  function Chunks(len: nat): nat {
    len / CHUNK_MAX + 1
  }

  lemma ChunksRoundUp(len: nat)
    requires len % CHUNK_MAX != 0
    ensures Chunks(len) == (len + CHUNK_MAX - 1) / CHUNK_MAX
  {
  }

  /** The list-done packets that it takes to send the files. */
  function Steps(env: Env, files: seq<CFile>): nat {
    if files == [] then 0 else 1 + Chunks(|Content(env, files[0])|) + Steps(env, files[1..])
  }

  // ---------------------------------------------------------------- what is sent

  function ChunkPackets(env: Env, content: seq<byte>, k: nat): seq<Packet> {
    if k == 0 then [] else ChunkPackets(env, content, k - 1) + [DataPacket(env, content, k - 1, (k - 1) * CHUNK_MAX)]
  }

  function FilePackets(env: Env, f: CFile): seq<Packet> {
    [FileSend(f.ent.size, BaseName(f.file.filename))]
    + ChunkPackets(env, Content(env, f), Chunks(|Content(env, f)|)) + [FileDone]
  }

  /** From directory `dir`: all the files, and back to the base. */
  function Transfer(env: Env, dir: seq<string>, files: seq<CFile>): seq<Packet>
    decreases |files|
  {
    if files == [] then Route(dir, []) + [DirUp] + [SendDone]
    else
      Route(dir, Dir(files[0].file.filename)) + FilePackets(env, files[0])
      + Transfer(env, Dir(files[0].file.filename), files[1..])
  }

  // ---------------------------------------------------------------- runs

  /** The state after `n` list-done packets, or the error of the first that failed. */
  function After(env: Env, s: Srv, n: nat): Result<Srv>
    requires Inv(s)
    decreases n
  {
    if n == 0 then Ok(s)
    else
      match Handle(env, s)
      case Err(code) => Err(code)
      case Ok(next) =>
        InvKept(env, s, CFile(PatchFile("", false, false, false, []), BLANK));
        After(env, next, n - 1)
  }

  lemma {:induction false} AfterSum(env: Env, s: Srv, n: nat, m: nat)
    requires Inv(s) && After(env, s, n).Ok?
    ensures Inv(After(env, s, n).value) && After(env, s, n + m) == After(env, After(env, s, n).value, m)
    decreases n
  {
    hide Handle;
    if n > 0 {
      InvKept(env, s, CFile(PatchFile("", false, false, false, []), BLANK));
      AfterSum(env, Handle(env, s).value, n - 1, m);
    }
  }

  lemma OneStep(env: Env, s: Srv)
    requires Inv(s)
    ensures After(env, s, 1) == Handle(env, s)
  {
    hide Handle;
    InvKept(env, s, CFile(PatchFile("", false, false, false, []), BLANK));
    if Handle(env, s).Ok? {
      assert After(env, Handle(env, s).value, 0) == Ok(Handle(env, s).value);
    }
  }

  /** The file at the head is being sent, and `k` chunks are out. */
  function Sending(queue: seq<CFile>, sent: seq<Packet>, k: nat): Srv {
    Srv(queue, 3, k, k * CHUNK_MAX, sent)
  }

  lemma PieceSizes(content: seq<byte>, k: nat)
    ensures k < |content| / CHUNK_MAX ==> |Piece(content, k * CHUNK_MAX)| == CHUNK_MAX
    ensures k == |content| / CHUNK_MAX ==> |Piece(content, k * CHUNK_MAX)| == |content| % CHUNK_MAX
  {
    var q, r := |content| / CHUNK_MAX, |content| % CHUNK_MAX;
    assert |content| == q * CHUNK_MAX + r;
    if k < q {
      assert (k + 1) * CHUNK_MAX <= q * CHUNK_MAX;
    }
  }

  /** The full chunks of the file at the head. */
  lemma {:induction false} FullChunks(env: Env, queue: seq<CFile>, sent: seq<Packet>, k: nat)
    requires queue != [] && env.disk(queue[0].ent.filename).Some? && k <= |Content(env, queue[0])| / CHUNK_MAX
    ensures After(env, Sending(queue, sent, 0), k)
      == Ok(Sending(queue, sent + ChunkPackets(env, Content(env, queue[0]), k), k))
    decreases k
  {
    hide Piece, DataPacket, Route, Passable, Dir, BaseName;
    var content := Content(env, queue[0]);
    if k == 0 {
      assert sent + [] == sent;
    } else {
      FullChunks(env, queue, sent, k - 1);
      var s := Sending(queue, sent + ChunkPackets(env, content, k - 1), k - 1);
      PieceSizes(content, k - 1);
      AfterSum(env, Sending(queue, sent, 0), k - 1, 1);
      OneStep(env, s);
      assert (sent + ChunkPackets(env, content, k - 1)) + [DataPacket(env, content, k - 1, (k - 1) * CHUNK_MAX)]
        == sent + ChunkPackets(env, content, k);
    }
  }

  /** The whole file at the head, with its end. */
  lemma WholeFile(env: Env, queue: seq<CFile>, sent: seq<Packet>)
    requires queue != [] && Sendable(env, queue[0])
    ensures var c := Content(env, queue[0]);
      After(env, Sending(queue, sent, 0), Chunks(|c|))
      == Ok(Srv(queue, 2, 0, 0, sent + (ChunkPackets(env, c, Chunks(|c|)) + [FileDone])))
  {
    hide Piece, DataPacket, Route, Passable, Dir, BaseName;
    var c := Content(env, queue[0]);
    var k := |c| / CHUNK_MAX;
    FullChunks(env, queue, sent, k);
    PieceSizes(c, k);
    var s := Sending(queue, sent + ChunkPackets(env, c, k), k);
    AfterSum(env, Sending(queue, sent, 0), k, 1);
    OneStep(env, s);
    var d := DataPacket(env, c, k, k * CHUNK_MAX);
    assert ((sent + ChunkPackets(env, c, k)) + [d]) + [FileDone] == sent + ((ChunkPackets(env, c, k) + [d]) + [FileDone]);
  }

  /** A file that cannot be sent to its end: the error comes after its full chunks. */
  lemma FileFails(env: Env, queue: seq<CFile>, sent: seq<Packet>)
    requires queue != [] && !Sendable(env, queue[0])
    ensures After(env, Sending(queue, sent, 0), |Content(env, queue[0])| / CHUNK_MAX + 1) == Err(-4)
  {
    hide Piece, DataPacket, Route, Passable, Dir, BaseName;
    var c := Content(env, queue[0]);
    var k := |c| / CHUNK_MAX;
    if env.disk(queue[0].ent.filename).None? {
      OneStep(env, Sending(queue, sent, 0));
    } else {
      FullChunks(env, queue, sent, k);
      PieceSizes(c, k);
      AfterSum(env, Sending(queue, sent, 0), k, 1);
      OneStep(env, Sending(queue, sent + ChunkPackets(env, c, k), k));
    }
  }

  /** The two states in which the next file starts: the first file, or a file that is done. */
  ghost predicate Between(s: Srv, dir: seq<string>, files: seq<CFile>) {
    && s.chunk == 0 && s.pos == 0
    && ((s.phase == 1 && s.queue == files != [] && dir == [])
        || (s.phase == 2 && s.queue != [] && s.queue[1..] == files && dir == Dir(s.queue[0].file.filename)))
  }

  lemma StartsFile(env: Env, s: Srv, dir: seq<string>, files: seq<CFile>)
    requires Between(s, dir, files) && files != [] && AllFit(dir) && NamesFit(files[0])
    ensures Inv(s)
    ensures After(env, s, 1) == Ok(Sending(files, s.sent
      + Route(dir, Dir(files[0].file.filename)) + [FileSend(files[0].ent.size, BaseName(files[0].file.filename))], 0))
  {
    hide Route, Dir, BaseName, Passable, AllFit;
    PassableFits(dir, Dir(files[0].file.filename));
    OneStep(env, s);
  }

  lemma {:induction false} SendsAll(env: Env, s: Srv, dir: seq<string>, files: seq<CFile>)
    requires Between(s, dir, files) && AllFit(dir) && AllNamesFit(files) && AllSendable(env, files)
    ensures Inv(s)
    ensures After(env, s, Steps(env, files) + 1) == Ok(Srv([], 0, 0, 0, s.sent + Transfer(env, dir, files)))
    decreases |files|
  {
    hide Route, Dir, BaseName, Passable, AllFit, ChunkPackets, Handle, Content, Chunks;
    if files == [] {
      SendsEnd(env, s, dir);
    } else {
      var f := files[0];
      StartsFile(env, s, dir, files);
      var sent1 := s.sent + Route(dir, Dir(f.file.filename)) + [FileSend(f.ent.size, BaseName(f.file.filename))];
      WholeFile(env, files, sent1);
      var n := Chunks(|Content(env, f)|);
      AfterSum(env, s, 1, n);
      var sent2 := sent1 + (ChunkPackets(env, Content(env, f), n) + [FileDone]);
      var s2 := Srv(files, 2, 0, 0, sent2);
      SendsAll(env, s2, Dir(f.file.filename), files[1..]);
      AfterSum(env, s, 1 + n, Steps(env, files[1..]) + 1);
      TransferOne(env, s.sent, dir, files);
    }
  }

  lemma SendsEnd(env: Env, s: Srv, dir: seq<string>)
    requires Between(s, dir, []) && AllFit(dir)
    ensures Inv(s) && After(env, s, 1) == Ok(Srv([], 0, 0, 0, s.sent + Transfer(env, dir, [])))
  {
    hide Route, Dir, Passable, AllFit;
    NoTokens();
    PassableFits(dir, []);
    OneStep(env, s);
    var r := Route(dir, []);
    assert ((s.sent + r) + [DirUp]) + [SendDone] == s.sent + (r + [DirUp] + [SendDone]);
  }

  lemma TransferOne(env: Env, sent: seq<Packet>, dir: seq<string>, files: seq<CFile>)
    requires files != []
    ensures var f := files[0];
      ((sent + Route(dir, Dir(f.file.filename)) + [FileSend(f.ent.size, BaseName(f.file.filename))])
        + (ChunkPackets(env, Content(env, f), Chunks(|Content(env, f)|)) + [FileDone]))
        + Transfer(env, Dir(f.file.filename), files[1..])
      == sent + Transfer(env, dir, files)
  {
    hide Route, ChunkPackets, Content, Chunks;
    var f := files[0];
    var r, c := Route(dir, Dir(f.file.filename)), ChunkPackets(env, Content(env, f), Chunks(|Content(env, f)|));
    Assoc(sent, r, FileSend(f.ent.size, BaseName(f.file.filename)), c, Transfer(env, Dir(f.file.filename), files[1..]));
  }

  lemma Assoc(s: seq<Packet>, r: seq<Packet>, p: Packet, c: seq<Packet>, t: seq<Packet>)
    ensures ((s + r + [p]) + (c + [FileDone])) + t == s + (r + ([p] + c + [FileDone]) + t)
  {
  }

  /** A run from a queue of sendable files: the information packet with the count and the sum of the
      sizes, then everything, in exactly two more steps than the files take. */
  lemma TransferRuns(env: Env, files: seq<CFile>, sent: seq<Packet>)
    requires files != [] && AllNamesFit(files) && AllSendable(env, files)
    ensures After(env, Srv(files, 0, 0, 0, sent), 2 + Steps(env, files)) ==
      Ok(Srv([], 0, 0, 0,
             sent + [SendInfo(Total(files) % WORD, |files| % WORD)] + [Chdir(".")] + Transfer(env, [], files)))
  {
    hide Transfer, Total, Steps, AllNamesFit, AllSendable, Route, After;
    NoTokens();
    var s0 := Srv(files, 0, 0, 0, sent);
    OneStep(env, s0);
    var s1 := Handle(env, s0).value;
    SendsAll(env, s1, [], files);
    AfterSum(env, s0, 1, Steps(env, files) + 1);
  }

  /** If the first `i` files can be sent and the next cannot, the run ends there with an error. */
  lemma {:induction false} StopsAt(env: Env, s: Srv, dir: seq<string>, files: seq<CFile>, i: nat)
    requires Between(s, dir, files) && AllFit(dir) && AllNamesFit(files)
    requires i < |files| && AllSendable(env, files[..i]) && !Sendable(env, files[i])
    ensures Inv(s)
    ensures After(env, s, Steps(env, files[..i]) + 2 + |Content(env, files[i])| / CHUNK_MAX) == Err(-4)
    decreases i
  {
    hide Route, Dir, BaseName, Passable, AllFit, ChunkPackets, Handle, Content, Chunks;
    var f := files[0];
    StartsFile(env, s, dir, files);
    var sent1 := s.sent + Route(dir, Dir(f.file.filename)) + [FileSend(f.ent.size, BaseName(f.file.filename))];
    if i == 0 {
      FileFails(env, files, sent1);
      AfterSum(env, s, 1, |Content(env, f)| / CHUNK_MAX + 1);
      assert Steps(env, files[..0]) == 0;
    } else {
      assert files[..i][0] == f && files[..i][1..] == files[1..][..i - 1];
      WholeFile(env, files, sent1);
      var n := Chunks(|Content(env, f)|);
      AfterSum(env, s, 1, n);
      var sent2 := sent1 + (ChunkPackets(env, Content(env, f), n) + [FileDone]);
      StopsAt(env, Srv(files, 2, 0, 0, sent2), Dir(f.file.filename), files[1..], i - 1);
      AfterSum(env, s, 1 + n, Steps(env, files[1..][..i - 1]) + 2 + |Content(env, files[i])| / CHUNK_MAX);
    }
  }

  /** With names that fit, a queue is sent to its end exactly when no file in it has a length that is
      a multiple of the chunk size, zero included, and all of them exist. */
  lemma EndsIffSendable(env: Env, files: seq<CFile>, sent: seq<Packet>)
    requires files != [] && AllNamesFit(files)
    ensures (exists n: nat, s: Srv :: Ends(env, files, sent, n, s)) <==> AllSendable(env, files)
  {
    hide Handle, Steps, Transfer, AllNamesFit, Total, Content;
    var s0 := Srv(files, 0, 0, 0, sent);
    if AllSendable(env, files) {
      TransferRuns(env, files, sent);
      assert Ends(env, files, sent, 2 + Steps(env, files), After(env, s0, 2 + Steps(env, files)).value);
    } else {
      var i := FirstBad(env, files);
      NoTokens();
      Starts(env, files, sent);
      var s1 := After(env, s0, 1).value;
      StopsAt(env, s1, [], files, i);
      var m := Steps(env, files[..i]) + 2 + |Content(env, files[i])| / CHUNK_MAX;
      AfterSum(env, s0, 1, m);
      forall n: nat, s: Srv
        ensures !Ends(env, files, sent, n, s)
      {
        NeverEnds(env, files, sent, m + 1, n, s);
      }
    }
  }

  /** A transfer that has started is over when it is in phase 0 again. */
  ghost predicate Ends(env: Env, files: seq<CFile>, sent: seq<Packet>, n: nat, s: Srv)
    requires files != []
  {
    n > 0 && After(env, Srv(files, 0, 0, 0, sent), n) == Ok(s) && s.phase == 0 && s.queue == []
  }

  lemma Starts(env: Env, files: seq<CFile>, sent: seq<Packet>)
    requires files != []
    ensures var s := Handle(env, Srv(files, 0, 0, 0, sent));
      s.Ok? && Between(s.value, [], files) && After(env, Srv(files, 0, 0, 0, sent), 1) == s
  {
    hide Route, Passable, Dir, BaseName, ChunkAt;
    OneStep(env, Srv(files, 0, 0, 0, sent));
  }

  lemma {:induction false} FirstBad(env: Env, files: seq<CFile>) returns (i: nat)
    requires !AllSendable(env, files)
    ensures i < |files| && AllSendable(env, files[..i]) && !Sendable(env, files[i])
    decreases |files|
  {
    hide Sendable;
    var n := |files| - 1;
    if AllSendable(env, files[..n]) {
      i := n;
      assert files == files[..n] + [files[n]];
    } else {
      i := FirstBad(env, files[..n]);
      assert files[..n][..i] == files[..i];
    }
  }

  /** Once the queue is empty it stays so, and the run goes on. */
  lemma {:induction false} EmptyStays(env: Env, s: Srv, n: nat)
    requires s.queue == [] && s.phase == 0 && Inv(s)
    ensures After(env, s, n).Ok?
    decreases n
  {
    if n > 0 {
      EmptyStays(env, Handle(env, s).value, n - 1);
    }
  }

  lemma {:induction false} FailedStays(env: Env, s: Srv, m: nat, n: nat)
    requires Inv(s) && After(env, s, m).Err? && m <= n
    ensures After(env, s, n).Err?
    decreases m
  {
    hide Handle;
    if m > 0 {
      InvKept(env, s, CFile(PatchFile("", false, false, false, []), BLANK));
      if Handle(env, s).Ok? {
        FailedStays(env, Handle(env, s).value, m - 1, n - 1);
      }
    }
  }

  lemma NeverEnds(env: Env, files: seq<CFile>, sent: seq<Packet>, m: nat, n: nat, s: Srv)
    requires files != [] && After(env, Srv(files, 0, 0, 0, sent), m).Err?
    ensures !Ends(env, files, sent, n, s)
  {
    hide Handle, After;
    var s0 := Srv(files, 0, 0, 0, sent);
    if Ends(env, files, sent, n, s) {
      if m <= n {
        FailedStays(env, s0, m, n);
      } else {
        AfterSum(env, s0, n, m - n);
        EmptyStays(env, s, m - n);
      }
    }
  }
}
