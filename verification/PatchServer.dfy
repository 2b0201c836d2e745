/**
 The transfer of patch files: which files a client's answers queue, and the state machine that sends
 them, one step for each list-done packet of the client.
 */
module PatchServer {
  import opened Bytes
  import opened PatchPaths
  import opened PatchList
  import opened PatchConfig

  const CHUNK_MAX: nat := 24576
  const WORD: nat := 0x1_0000_0000

  /** A queued file: the patch, and which of its entries to send. */
  datatype CFile = CFile(file: PatchFile, ent: Entry)

  // ---------------------------------------------------------------- the client's answers

  function Fetched(q: seq<PatchFile>, idx: nat): Option<PatchFile> {
    if idx < |q| then Some(q[idx]) else None
  }

  method FetchPatch(idx: nat, q: seq<PatchFile>) returns (f: Option<PatchFile>)
    ensures f == Fetched(q, idx)
  {
    var i, left := 0, idx;
    while i < |q| && left > 0
      invariant 0 <= i <= |q| && i + left == idx && left >= 0
    {
      i, left := i + 1, left - 1;
    }
    f := if i < |q| then Some(q[i]) else None;
  }

  predicate Differs(e: Entry, checksum: nat, size: nat) {
    e.checksum != checksum || e.size != size
  }

  /** The test that the server makes for entry `j`. */
  predicate Wanted(f: PatchFile, j: nat, checksum: nat, size: nat)
    requires j < |f.entries|
  {
    var e := f.entries[j];
    if f.noIf then j == 0 && Differs(e, checksum, size)
    else e.client == checksum || (f.hasElse && j == |f.entries| - 1 && Differs(e, checksum, size))
  }

  /** The first entry from `j` on that passes the test. */
  function FirstWanted(f: PatchFile, j: nat, checksum: nat, size: nat): (k: Option<nat>)
    requires j <= |f.entries|
    ensures k.Some? ==> j <= k.value < |f.entries|
    decreases |f.entries| - j
  {
    if j == |f.entries| then None
    else if Wanted(f, j, checksum, size) then Some(j)
    else FirstWanted(f, j + 1, checksum, size)
  }

  lemma {:induction false} FirstWantedIsFirst(f: PatchFile, j: nat, checksum: nat, size: nat)
    requires j <= |f.entries|
    ensures match FirstWanted(f, j, checksum, size)
      case None => forall i :: j <= i < |f.entries| ==> !Wanted(f, i, checksum, size)
      case Some(k) => Wanted(f, k, checksum, size) && forall i :: j <= i < k ==> !Wanted(f, i, checksum, size)
    decreases |f.entries| - j
  {
    hide Wanted;
    if j < |f.entries| {
      FirstWantedIsFirst(f, j + 1, checksum, size);
    }
  }

  /** The answer about one file queues the first entry that passes the test, if any does. */
  method StoreFile(q: seq<PatchFile>, files: seq<CFile>, idx: nat, checksum: nat, size: nat)
    returns (rv: int, files': seq<CFile>)
    requires forall i :: 0 <= i < |q| ==> |q[i].entries| > 0
    ensures rv == if idx < |q| then 0 else -1
    ensures rv != 0 ==> files' == files
    ensures rv == 0 ==>
      files' == match FirstWanted(q[idx], 0, checksum, size)
                case None => files
                case Some(k) => files + [CFile(q[idx], q[idx].entries[k])]
  {
    hide Differs;
    files' := files;
    var found := FetchPatch(idx, q);
    if found.None? {
      return -1, files';
    }
    var f := found.value;
    if f.noIf {
      NoneLater(f, 1, checksum, size);
      if Differs(f.entries[0], checksum, size) {
        files' := files + [CFile(f, f.entries[0])];
      }
    } else {
      var j := 0;
      while j < |f.entries|
        invariant 0 <= j <= |f.entries| && files' == files
        invariant FirstWanted(f, 0, checksum, size) == FirstWanted(f, j, checksum, size)
      {
        var ent := f.entries[j];
        if ent.client == checksum || (f.hasElse && j == |f.entries| - 1 && Differs(ent, checksum, size)) {
          return 0, files + [CFile(f, ent)];
        }
        j := j + 1;
      }
    }
    rv := 0;
  }

  /** An unconditional patch has one entry to offer. */
  lemma NoneLater(f: PatchFile, j: nat, checksum: nat, size: nat)
    requires f.noIf && 0 < j <= |f.entries|
    ensures FirstWanted(f, j, checksum, size) == None
    decreases |f.entries| - j
  {
  }

  /** The number of conditions of a patch. */
  function Conditions(f: PatchFile): int {
    if f.hasElse then |f.entries| - 1 else |f.entries|
  }

  /** What the configuration means: a condition with the client's checksum, or the last entry for all
      other clients if the client's file differs from it. */
  predicate Meant(f: PatchFile, k: nat, checksum: nat, size: nat)
    requires k < |f.entries|
  {
    if f.noIf then k == 0 && Differs(f.entries[0], checksum, size)
    else if k < Conditions(f) then f.entries[k].client == checksum
    else Differs(f.entries[k], checksum, size)
  }

  function FirstMeant(f: PatchFile, j: nat, checksum: nat, size: nat): (k: Option<nat>)
    requires j <= |f.entries|
    decreases |f.entries| - j
  {
    if j == |f.entries| then None
    else if Meant(f, j, checksum, size) then Some(j)
    else FirstMeant(f, j + 1, checksum, size)
  }

  /** The client reports the checksum 0 for a file that needs no change, and no condition asks for 0:
      the entry for all others has 0 as its own condition. */
  predicate ZeroReported(f: PatchFile, j: nat, checksum: nat, size: nat)
    requires WellFormed(f)
  {
    && f.hasElse && checksum == 0 && !Differs(f.entries[|f.entries| - 1], checksum, size)
    && forall k :: j <= k < |f.entries| - 1 ==> f.entries[k].client != 0
  }

  /** One entry: the test means what the configuration says for every entry but the last. */
  lemma TestMeans(f: PatchFile, k: nat, checksum: nat, size: nat)
    requires WellFormed(f) && k < |f.entries|
    ensures (Wanted(f, k, checksum, size) <==> Meant(f, k, checksum, size)) <==>
      !(f.hasElse && k == |f.entries| - 1 && checksum == 0 && !Differs(f.entries[k], checksum, size))
  {
  }

  lemma {:induction false} AnswerMeansFrom(f: PatchFile, j: nat, checksum: nat, size: nat)
    requires WellFormed(f) && j <= |f.entries|
    ensures FirstWanted(f, j, checksum, size) == FirstMeant(f, j, checksum, size)
      <==> !(j < |f.entries| && ZeroReported(f, j, checksum, size))
    ensures FirstWanted(f, j, checksum, size).Some? ==> FirstWanted(f, j, checksum, size).value >= j
    ensures FirstMeant(f, j, checksum, size).Some? ==> FirstMeant(f, j, checksum, size).value >= j
    decreases |f.entries| - j
  {
    hide Differs;
    if j < |f.entries| {
      TestMeans(f, j, checksum, size);
      AnswerMeansFrom(f, j + 1, checksum, size);
    }
  }

  /** For every accepted patch and every answer: the entry that is queued is the one that the
      configuration means, except exactly when the client reports the checksum 0 for a file that does
      not differ from the entry for all others, and no condition asks for 0. */
  lemma AnswerMeans(f: PatchFile, checksum: nat, size: nat)
    requires WellFormed(f)
    ensures FirstWanted(f, 0, checksum, size) == FirstMeant(f, 0, checksum, size)
      <==> !ZeroReported(f, 0, checksum, size)
  {
    AnswerMeansFrom(f, 0, checksum, size);
  }

  // ---------------------------------------------------------------- the transfer, as a state machine

  /** The files on disk, and the checksum of a chunk. */
  datatype Env = Env(disk: string -> Option<seq<byte>>, sum: seq<byte> -> nat)

  /** The connection: the queue, the phase (`sending_data`), the chunk number and position, and all
      that was sent. */
  datatype Srv = Srv(queue: seq<CFile>, phase: nat, chunk: nat, pos: nat, sent: seq<Packet>)

  function Total(queue: seq<CFile>): nat {
    if queue == [] then 0 else Total(queue[..|queue| - 1]) + queue[|queue| - 1].ent.size
  }

  function Zeroes(n: nat): (z: seq<byte>)
    ensures |z| == n
  {
    seq(n, _ => 0)
  }

  /** At most one chunk of the file. */
  function Piece(content: seq<byte>, pos: nat): (p: seq<byte>)
    ensures |p| <= CHUNK_MAX
  {
    if pos >= |content| then []
    else if pos + CHUNK_MAX <= |content| then content[pos..pos + CHUNK_MAX]
    else content[pos..]
  }

  function DataPacket(env: Env, content: seq<byte>, num: nat, pos: nat): Packet {
    var p := Piece(content, pos);
    Data(num, env.sum(p), |p|, p + Zeroes((4 - |p| % 4) % 4))
  }

  /** The announced size is the sum of the sizes of the queued entries. */
  lemma {:induction false} TotalAdds(a: seq<CFile>, b: seq<CFile>)
    ensures Total(a + b) == Total(a) + Total(b)
    ensures |a| == 1 ==> Total(a) == a[0].ent.size
    decreases |b|
  {
    if |a| == 1 {
      assert a[..0] == [];
    }
    if b == [] {
      assert a + b == a;
    } else {
      var n := |b| - 1;
      TotalAdds(a, b[..n]);
      assert (a + b)[..|a| + n] == a + b[..n];
    }
  }

  /** A data packet carries the bytes of the file at its position, as many as fit, with zeros behind them
      up to a multiple of four, and the checksum of those bytes. */
  lemma DataPacketIs(env: Env, content: seq<byte>, num: nat, pos: nat)
    requires pos <= |content|
    ensures var p := DataPacket(env, content, num, pos);
      && p.Data? && p.num == num && p.size <= |p.payload| < p.size + 4 && (16 + |p.payload|) % 4 == 0
      && p.size == (if pos + 24576 <= |content| then 24576 else |content| - pos)
      && p.payload[..p.size] == content[pos..pos + p.size] && p.sum == env.sum(content[pos..pos + p.size])
      && forall i :: p.size <= i < |p.payload| ==> p.payload[i] == 0
  {
    var s, n := Piece(content, pos), |Piece(content, pos)|;
    var z := Zeroes((4 - n % 4) % 4);
    assert (s + z)[..n] == s;
    assert 16 + |s + z| == 4 * ((16 + n + 3) / 4);
  }

  datatype Chunk = Failed | More | Last

  /** Reading a chunk finds the end of the file only when it reads less than a whole chunk. */
  function ChunkAt(env: Env, f: CFile, pos: nat): Chunk {
    match env.disk(f.ent.filename)
    case None => Failed
    case Some(content) =>
      var n := |Piece(content, pos)|;
      if n == 0 then Failed else if n < CHUNK_MAX then Last else More
  }

  function Content(env: Env, f: CFile): seq<byte> {
    match env.disk(f.ent.filename)
    case None => []
    case Some(content) => content
  }

  /** What every step keeps: a transfer that has started has a file at the head of the queue, and the
      position is that of the chunk number. */
  predicate Inv(s: Srv) {
    && s.phase <= 3 && (s.phase > 0 ==> s.queue != [])
    && s.pos == s.chunk * CHUNK_MAX && (s.phase != 3 ==> s.chunk == 0)
  }

  /** Starts on the next file, from directory `dir`. */
  function StartFile(s: Srv, dir: seq<string>, q: seq<CFile>): Result<Srv>
    requires q != []
  {
    var f := q[0];
    if !Passable(dir, Dir(f.file.filename)) then Err(-3)
    else if |BaseName(f.file.filename)| > 48 then Err(-1)
    else Ok(Srv(q, 3, s.chunk, s.pos, s.sent + Route(dir, Dir(f.file.filename)) + [FileSend(f.ent.size, BaseName(f.file.filename))]))
  }

  /** The end of the list: back to the base directory. */
  function Finish(s: Srv, dir: seq<string>): Result<Srv> {
    if !Passable(dir, []) then Err(-3)
    else Ok(Srv([], 0, s.chunk, s.pos, s.sent + Route(dir, []) + [DirUp] + [SendDone]))
  }

  /** One list-done packet.  The directory to leave is known wherever it is needed: the list can only
      end in phase 2. */
  function Handle(env: Env, s: Srv): Result<Srv>
    requires Inv(s)
  {
    if s.queue == [] then Ok(s.(phase := 0, sent := s.sent + [SendDone]))
    else if s.phase == 0 then
      Ok(s.(phase := 1, sent := s.sent + [SendInfo(Total(s.queue) % WORD, |s.queue| % WORD)] + [Chdir(".")]))
    else
      var f := s.queue[0];
      if s.phase == 1 then StartFile(s, [], s.queue)
      else if s.phase == 2 then
        if |s.queue| > 1 then StartFile(s, Dir(f.file.filename), s.queue[1..])
        else Finish(s, Dir(f.file.filename))
      else
        match ChunkAt(env, f, s.pos)
        case Failed => Err(-4)
        case More =>
          Ok(s.(chunk := s.chunk + 1, pos := s.pos + CHUNK_MAX,
                sent := s.sent + [DataPacket(env, Content(env, f), s.chunk, s.pos)]))
        case Last =>
          Ok(s.(phase := 2, chunk := 0, pos := 0,
                sent := s.sent + [DataPacket(env, Content(env, f), s.chunk, s.pos)] + [FileDone]))
  }

  /** Every step keeps the invariant, and so does every answer that queues a file meanwhile. */
  lemma InvKept(env: Env, s: Srv, more: CFile)
    requires Inv(s)
    ensures Handle(env, s).Ok? ==> Inv(Handle(env, s).value)
    ensures Inv(s.(queue := s.queue + [more]))
  {
    hide Route, Dir, BaseName, Passable;
  }

  // ---------------------------------------------------------------- the server's code

  class PatchClient {
    const env: Env
    const wire: Wire
    var files: seq<CFile>
    var sendingData: nat
    var curChunk: nat
    var curPos: nat

    constructor (env: Env)
      ensures fresh(wire) && this.env == env && State() == Srv([], 0, 0, 0, [])
    {
      this.env := env;
      wire := new Wire();
      files, sendingData, curChunk, curPos := [], 0, 0, 0;
    }

    function State(): Srv
      reads this, wire
    {
      Srv(files, sendingData, curChunk, curPos, wire.sent)
    }

    /** Pads the packet to four bytes, with its header of sixteen. */
    method Padded(data: seq<byte>) returns (payload: seq<byte>)
      ensures payload == data + Zeroes((4 - |data| % 4) % 4)
    {
      var sz := |data|;
      var len := 16 + sz;
      payload := data;
      while len % 4 != 0
        invariant 16 + sz <= len <= 16 + sz + (4 - sz % 4) % 4
        invariant payload == data + Zeroes(len - 16 - sz)
        decreases 16 + sz + (4 - sz % 4) % 4 - len
      {
        assert Zeroes(len - 16 - sz) + [0] == Zeroes(len + 1 - 16 - sz);
        payload, len := payload + [0], len + 1;
      }
    }

    /** Sends the current chunk: negative on failure, 1 at the end of the file. */
    method SendFileChunk(f: CFile) returns (rv: int)
      modifies this, wire
      ensures files == old(files) && sendingData == old(sendingData)
      ensures rv == match ChunkAt(env, f, old(curPos)) { case Failed => -1 case More => 0 case Last => 1 }
      ensures rv >= 0 ==>
        && curChunk == old(curChunk) + 1 && curPos == old(curPos) + |Piece(Content(env, f), old(curPos))|
        && wire.sent == old(wire.sent) + [DataPacket(env, Content(env, f), old(curChunk), old(curPos))]
    {
      hide Zeroes;
      var fp := env.disk(f.ent.filename);
      if fp.None? {
        return -1;
      }
      var data := Piece(fp.value, curPos);
      var sz := |data|;
      if sz == 0 {
        return -1;
      }
      var payload := Padded(data);
      wire.SendSimple(Data(curChunk, env.sum(data), sz, payload));
      curChunk, curPos := curChunk + 1, curPos + sz;
      rv := if sz < CHUNK_MAX then 1 else 0;
    }

    /** The number of queued files and the sum of their sizes, in 32 bits. */
    method Tabulate() returns (count: nat, size: nat)
      ensures count == |files| % WORD && size == Total(files) % WORD
    {
      count, size := 0, 0;
      for j := 0 to |files|
        invariant count == j % WORD && size == Total(files[..j]) % WORD
      {
        assert files[..j + 1][..j] == files[..j];
        count, size := (count + 1) % WORD, (size + files[j].ent.size) % WORD;
      }
      assert files[..|files|] == files;
    }

    method HandleListDone() returns (rv: int)
      requires Inv(State())
      modifies this, wire
      ensures match Handle(env, old(State()))
              case Err(code) => rv == code < 0
              case Ok(s) => rv == 0 && State() == s && Inv(s)
    {
      hide Route, Tokens, DirName, BaseName, Passable, Lcp, Piece, DataPacket, AllFit, Total;
      InvKept(env, State(), CFile(PatchFile("", false, false, false, []), BLANK));
      if files == [] {
        sendingData := 0;
        wire.SendSimple(SendDone);
        return 0;
      }
      if sendingData == 0 {
        sendingData := 1;
        var count, size := Tabulate();
        wire.SendSimple(SendInfo(size, count));
        rv := wire.SendChdir(".");
        return;
      }
      var f := files[0];
      var dir: Option<string> := None;
      if sendingData == 1 {
        dir := Some("");
        NoTokens();
      } else if sendingData == 2 {
        var d, bn := Split(f.file.filename);
        dir := Some(d);
        files := files[1..];
      }
      if sendingData < 3 && files != [] {
        var next := files[0];
        var dir2, bn := Split(next.file.filename);
        rv := wire.ChangeDirectory(dir.value, dir2);
        if rv != 0 {
          return -3;
        }
        sendingData := 3;
        rv := wire.SendFileSend(next.ent.size, bn);
        return;
      }
      if files != [] {
        rv := SendFileChunk(f);
        if rv < 0 {
          return -4;
        }
        if rv > 0 {
          sendingData, curChunk, curPos := 2, 0, 0;
          wire.SendSimple(FileDone);
        }
        return 0;
      }
      NoTokens();
      rv := wire.ChangeDirectory(dir.value, "");
      if rv != 0 {
        return -3;
      }
      wire.SendSimple(DirUp);
      sendingData := 0;
      wire.SendSimple(SendDone);
      rv := 0;
    }
  }
}
