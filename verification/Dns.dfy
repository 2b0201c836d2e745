/** The DNS responder: how it rebuilds the name that is asked for, which queries it answers, and what
    an answer says.  Names in messages are those of section 4.1.2 of RFC 1035, the pointer in an answer
    that of section 4.1.4. */
module Dns {
  import opened Bytes
  import Image

  type Text = seq<byte>

  const DOT: byte := 0x2E
  const HEADER: nat := 12

  datatype Host = Host(name: Text, addr: Text)

  // ---------------------------------------------------------------- names

  /** Upper case, in the plain C locale. */
  function Upper(b: byte): byte {
    if 0x61 <= b as int <= 0x7A then b as int - 0x20 else b
  }

  /** The same letter in both cases, and nothing else, has one upper case. */
  lemma UpperMergesCases(a: byte, b: byte)
    ensures Upper(a) == Upper(b) <==>
      || a == b
      || (0x41 <= a as int <= 0x5A && b as int == a as int + 0x20)
      || (0x41 <= b as int <= 0x5A && a as int == b as int + 0x20)
  {
  }

  predicate SameName(a: Text, b: Text) {
    |a| == |b| && forall i :: 0 <= i < |a| ==> Upper(a[i]) == Upper(b[i])
  }

  predicate NulFree(s: Text) {
    forall i :: 0 <= i < |s| ==> s[i] != 0
  }

  /** Each label with a dot behind it. */
  function Joined(labels: seq<Text>): Text {
    if labels == [] then []
    else Joined(labels[..|labels| - 1]) + labels[|labels| - 1] + [DOT]
  }

  /** The labels with dots between them. */
  function Dotted(labels: seq<Text>): Text {
    if labels == [] then [] else Joined(labels)[..|Joined(labels)| - 1]
  }

  /** The labels from position `i` on: each fits the message with five bytes to spare, and a zero ends
      them. */
  function Labels(data: Text, i: nat): Option<seq<Text>>
    decreases |data| - i
  {
    if i >= |data| || |data| < i + data[i] as int + 5 then None
    else if data[i] == 0 then Some([])
    else
      match Labels(data, i + data[i] as int + 1)
      case None => None
      case Some(rest) => Some([data[i + 1..i + 1 + data[i] as int]] + rest)
  }

  function Prepend(labels: seq<Text>, rest: Option<seq<Text>>): Option<seq<Text>> {
    match rest
    case None => None
    case Some(r) => Some(labels + r)
  }

  // ---------------------------------------------------------------- the reference

  /** One question, and nothing else. */
  predicate OneQuestion(msg: Text)
    requires |msg| >= HEADER
  {
    msg[4..12] == [0, 1, 0, 0, 0, 0, 0, 0]
  }

  function FirstHost(hosts: seq<Host>, name: Text): Option<Host> {
    if hosts == [] then None
    else if SameName(hosts[0].name, name) then Some(hosts[0])
    else FirstHost(hosts[1..], name)
  }

  /** The query with the response flags, an answer count of one, and the answer record. */
  function Answer(msg: Text, h: Host): Text
    requires |msg| >= HEADER
  {
    msg[..2] + [0x81, 0x80] + msg[4..6] + [0, 1] + msg[8..]
    + [0xC0, 0x0C, 0, 1, 0, 1, 0, 0, 0x09, 0xFC, 0, 4] + h.addr
  }

  /** What a query leads to: nothing, a reply, or a write in front of the name's buffer, behind which the
      program means nothing any more. */
  datatype Outcome = Silent | Sent(reply: Text) | Underrun

  function Replied(hosts: seq<Host>, msg: Text, name: Text): Outcome
    requires |msg| >= HEADER
  {
    match FirstHost(hosts, Image.UpToNul(name))
    case None => Silent
    case Some(h) => if |msg| + 16 > 512 then Silent else Sent(Answer(msg, h))
  }

  function Reply(hosts: seq<Host>, msg: Text): Outcome
    requires |msg| >= HEADER
  {
    if !OneQuestion(msg) then Silent
    else
      match Labels(msg[HEADER..], 0)
      case None => Silent
      case Some(labels) => if labels == [] then Underrun else Replied(hosts, msg, Dotted(labels))
  }

  // ---------------------------------------------------------------- the program

  lemma {:induction false} UpToNulIs(b: Text, n: nat)
    requires n < |b| && b[n] == 0 && NulFree(b[..n])
    ensures Image.UpToNul(b) == b[..n]
    decreases n
  {
    if n == 0 {
      assert b[..0] == [];
    } else {
      assert b[0] == b[..n][0];
      assert b[1..][..n - 1] == b[..n][1..];
      UpToNulIs(b[1..], n - 1);
      assert b[..n] == [b[0]] + b[1..][..n - 1];
    }
  }

  lemma {:induction false} FirstNul(b: Text) returns (n: nat)
    requires 0 in b
    ensures n < |b| && b[n] == 0 && NulFree(b[..n])
    decreases |b|
  {
    if b[0] == 0 {
      n := 0;
    } else {
      assert b == [b[0]] + b[1..];
      n := FirstNul(b[1..]);
      n := n + 1;
      assert b[..n] == [b[0]] + b[1..][..n - 1];
    }
  }

  /** Compares a name with the C string in a buffer, ignoring case. */
  method CmpStr(s1: Text, buf: array<byte>) returns (v: int)
    requires NulFree(s1) && 0 in buf[..]
    ensures v == 0 <==> SameName(s1, Image.UpToNul(buf[..]))
  {
    ghost var n := FirstNul(buf[..]);
    UpToNulIs(buf[..], n);
    ghost var s2 := buf[..n];
    assert forall i :: 0 <= i < n ==> s2[i] == buf[i] && buf[i] != 0;
    var j := 0;
    while true
      invariant 0 <= j <= |s1| && j <= n && forall i :: 0 <= i < j ==> Upper(s1[i]) == Upper(buf[i])
      decreases n - j
    {
      var c1: byte := if j < |s1| then s1[j] else 0;
      v := Upper(c1) as int - Upper(buf[j]) as int;
      if v != 0 || c1 == 0 {
        return;
      }
      j := j + 1;
    }
  }

  class Responder {
    const hosts: seq<Host>
    const hostbuf: array<byte>

    constructor (hosts: seq<Host>)
      requires forall i :: 0 <= i < |hosts| ==> NulFree(hosts[i].name) && |hosts[i].addr| == 4
      ensures Valid() && this.hosts == hosts && fresh(hostbuf)
    {
      this.hosts := hosts;
      hostbuf := new byte[1024](_ => 0);
    }

    ghost predicate Valid() {
      hostbuf.Length == 1024 && forall i :: 0 <= i < |hosts| ==> NulFree(hosts[i].name) && |hosts[i].addr| == 4
    }

    method FindHost() returns (h: Option<Host>)
      requires Valid() && 0 in hostbuf[..]
      ensures h == FirstHost(hosts, Image.UpToNul(hostbuf[..]))
    {
      ghost var name := Image.UpToNul(hostbuf[..]);
      hide SameName;
      assert hosts[0..] == hosts;
      for i := 0 to |hosts|
        invariant FirstHost(hosts, name) == FirstHost(hosts[i..], name)
      {
        var v := CmpStr(hosts[i].name, hostbuf);
        if v == 0 {
          return Some(hosts[i]);
        }
        assert hosts[i..][1..] == hosts[i + 1..];
      }
      h := None;
    }

    method RespondToQuery(msg: Text, h: Host) returns (o: Outcome)
      requires |msg| >= HEADER
      ensures o == if |msg| + 16 > 512 then Silent else Sent(Answer(msg, h))
    {
      if |msg| + 16 > 512 {
        return Silent;
      }
      var out := msg[2 := 0x81][3 := 0x80][6 := 0][7 := 1];
      out := out + [0xC0, 0x0C] + [0, 1] + [0, 1] + [0, 0, 0x09, 0xFC] + [0, 4] + h.addr;
      assert out == Answer(msg, h);
      o := Sent(out);
    }

    /** Copies one label behind the others, with a dot. */
    method AppendLabel(data: Text, i: nat, partlen: nat, ghost done: seq<Text>)
      requires Valid() && i + 1 + partlen < |data| <= 1012 && hostbuf[..i] == Joined(done)
      modifies hostbuf
      ensures hostbuf[..i + partlen + 1] == Joined(done + [data[i + 1..i + 1 + partlen]])
    {
      var k := 0;
      while k < partlen
        invariant 0 <= k <= partlen
        invariant forall j :: 0 <= j < i ==> hostbuf[j] == old(hostbuf[j])
        invariant forall j :: i <= j < i + k ==> hostbuf[j] == data[j + 1]
      {
        hostbuf[i + k] := data[i + 1 + k];
        k := k + 1;
      }
      hostbuf[i + partlen] := DOT;
      ghost var part := data[i + 1..i + 1 + partlen];
      assert (done + [part])[..|done|] == done;
      assert hostbuf[..i + partlen + 1] == old(hostbuf[..i]) + part + [DOT];
    }

    /** A query, and what it leads to. */
    method ProcessQuery(msg: Text) returns (o: Outcome)
      requires Valid() && HEADER < |msg| <= 1024
      modifies hostbuf
      ensures o == Reply(hosts, msg)
    {
      hide Joined, FirstHost, Answer;
      var data := msg[HEADER..];
      if msg[4] as int * 256 + msg[5] as int != 1 || msg[6] as int * 256 + msg[7] as int != 0
         || msg[8] as int * 256 + msg[9] as int != 0 || msg[10] as int * 256 + msg[11] as int != 0 {
        return Silent;
      }
      assert OneQuestion(msg);
      var i, hostlen := 0, 0;
      ghost var done: seq<Text> := [];
      assert hostbuf[..0] == Joined([]) by {
        NothingJoined();
      }
      PrependNone(Labels(data, 0));
      while i < |data|
        invariant 0 <= i && hostlen == i && hostlen <= |data| && hostbuf[..i] == Joined(done)
        invariant (i == 0 <==> done == [])
        invariant Labels(data, 0) == Prepend(done, Labels(data, i))
        decreases |data| - i
      {
        var partlen := data[i] as int;
        if |data| < i + partlen + 5 {
          return Silent;
        }
        if partlen == 0 {
          assert done + [] == done;
          if hostlen == 0 {
            return Underrun;
          }
          hostbuf[hostlen - 1] := 0;
          HostString(hostbuf[..], done, hostlen);
          var host := FindHost();
          if host.Some? {
            o := RespondToQuery(msg, host.value);
          } else {
            o := Silent;
          }
          return;
        }
        AppendLabel(data, i, partlen, done);
        ghost var part := data[i + 1..i + 1 + partlen];
        PrependMore(done, part, Labels(data, i + partlen + 1));
        done := done + [part];
        hostlen := hostlen + partlen + 1;
        i := i + partlen + 1;
      }
      o := Silent;
    }
  }

  lemma NothingJoined()
    ensures Joined([]) == []
  {
  }

  lemma PrependNone(rest: Option<seq<Text>>)
    ensures Prepend([], rest) == rest
  {
    if rest.Some? {
      assert [] + rest.value == rest.value;
    }
  }

  lemma PrependMore(done: seq<Text>, part: Text, rest: Option<seq<Text>>)
    ensures Prepend(done, Prepend([part], rest)) == Prepend(done + [part], rest)
  {
    if rest.Some? {
      assert done + ([part] + rest.value) == (done + [part]) + rest.value;
    }
  }

  /** The buffer with the last dot overwritten holds the dotted name as a C string. */
  lemma HostString(buf: Text, labels: seq<Text>, n: nat)
    requires labels != [] && n == |Joined(labels)| <= |buf| && n > 0
    requires buf[..n - 1] == Dotted(labels) && buf[n - 1] == 0
    ensures 0 in buf && Image.UpToNul(buf) == Image.UpToNul(Dotted(labels))
  {
    var m := FirstNul(buf);
    UpToNulIs(buf, m);
    var d := Dotted(labels);
    if m < n - 1 {
      assert d[..m] == buf[..m] && d[m] == 0;
      UpToNulIs(d, m);
    } else {
      assert buf[..m] == d;
      WholeString(d);
    }
  }

  lemma {:induction false} WholeString(s: Text)
    requires NulFree(s)
    ensures Image.UpToNul(s) == s
    decreases |s|
  {
    if s != [] {
      WholeString(s[1..]);
    }
  }

  // ---------------------------------------------------------------- names on the wire

  /** The wire form of a name: each label behind its length, and a zero. */
  function Wire(labels: seq<Text>): Text
    requires forall i :: 0 <= i < |labels| ==> 0 < |labels[i]| < 256
  {
    if labels == [] then [0] else [|labels[0]|] + labels[0] + Wire(labels[1..])
  }

  /** The labels that are sent are the labels that are read, wherever they stand in a message, exactly
      when type and class follow. */
  lemma {:induction false} WireReads(before: Text, labels: seq<Text>, after: Text)
    requires forall i :: 0 <= i < |labels| ==> 0 < |labels[i]| < 256
    ensures Labels(before + Wire(labels) + after, |before|) == if |after| >= 4 then Some(labels) else None
    decreases |labels|
  {
    var data := before + Wire(labels) + after;
    if labels == [] {
    } else {
      var part, rest := labels[0], labels[1..];
      var first := before + [|part|] + part;
      assert first + Wire(rest) + after == data;
      WireReads(first, rest, after);
      WireLength(rest);
      assert data[|before| + 1..|before| + 1 + |part|] == part;
      assert [part] + rest == labels;
    }
  }

  /** And labels that are read are there in wire form, with type and class behind them. */
  lemma {:induction false} LabelsAreWire(data: Text, i: nat)
    requires Labels(data, i).Some?
    ensures var labels := Labels(data, i).value;
      && (forall k :: 0 <= k < |labels| ==> 0 < |labels[k]| < 256)
      && i + |Wire(labels)| + 4 <= |data| && data[i..i + |Wire(labels)|] == Wire(labels)
    decreases |data| - i
  {
    if data[i] != 0 {
      var next := i + data[i] as int + 1;
      LabelsAreWire(data, next);
      var rest := Labels(data, next).value;
      var part := data[i + 1..next];
      assert ([part] + rest)[1..] == rest;
      assert data[i..next + |Wire(rest)|] == [data[i]] + part + data[next..next + |Wire(rest)|];
    }
  }

  lemma WireLength(labels: seq<Text>)
    requires forall i :: 0 <= i < |labels| ==> 0 < |labels[i]| < 256
    ensures |Wire(labels)| >= 1
  {
  }

  /** A well-formed query: a header with one question, a name, type and class, and maybe more. */
  predicate Query(msg: Text, labels: seq<Text>)
    requires forall i :: 0 <= i < |labels| ==> 0 < |labels[i]| < 256
  {
    && |msg| >= HEADER + |Wire(labels)| + 4
    && OneQuestion(msg) && msg[HEADER..HEADER + |Wire(labels)|] == Wire(labels)
  }

  lemma QueryReads(msg: Text, labels: seq<Text>)
    requires (forall i :: 0 <= i < |labels| ==> 0 < |labels[i]| < 256) && Query(msg, labels)
    ensures Labels(msg[HEADER..], 0) == Some(labels)
  {
    var data, n := msg[HEADER..], |Wire(labels)|;
    var after := data[n..];
    assert data[..n] == msg[HEADER..HEADER + n];
    assert [] + Wire(labels) + after == data;
    WireReads([], labels, after);
  }

  lemma {:induction false} JoinedNulFree(labels: seq<Text>)
    requires forall i :: 0 <= i < |labels| ==> NulFree(labels[i])
    ensures NulFree(Joined(labels))
    decreases |labels|
  {
    if labels != [] {
      JoinedNulFree(labels[..|labels| - 1]);
    }
  }

  lemma DottedNulFree(labels: seq<Text>)
    requires forall i :: 0 <= i < |labels| ==> NulFree(labels[i])
    ensures NulFree(Dotted(labels))
  {
    JoinedNulFree(labels);
    if labels != [] {
      assert forall i :: 0 <= i < |Dotted(labels)| ==> Dotted(labels)[i] == Joined(labels)[i];
    }
  }

  predicate Known(hosts: seq<Host>, name: Text) {
    exists i :: 0 <= i < |hosts| && SameName(hosts[i].name, name)
  }

  /** The first host in the list with the name. */
  predicate FirstWith(hosts: seq<Host>, h: Host, name: Text) {
    exists i :: 0 <= i < |hosts| && hosts[i] == h && SameName(h.name, name)
                && forall j :: 0 <= j < i ==> !SameName(hosts[j].name, name)
  }

  lemma {:induction false} FirstHostIsFirst(hosts: seq<Host>, name: Text)
    ensures FirstHost(hosts, name).Some? <==> Known(hosts, name)
    ensures FirstHost(hosts, name).Some? ==> FirstWith(hosts, FirstHost(hosts, name).value, name)
    decreases |hosts|
  {
    hide SameName;
    if hosts != [] && !SameName(hosts[0].name, name) {
      var rest := hosts[1..];
      FirstHostIsFirst(rest, name);
      assert forall i :: 0 < i < |hosts| ==> hosts[i] == rest[i - 1];
      if Known(hosts, name) {
        var i :| 0 <= i < |hosts| && SameName(hosts[i].name, name);
        assert SameName(rest[i - 1].name, name);
      }
      if Known(rest, name) {
        var h := FirstHost(rest, name).value;
        var i :| 0 <= i < |rest| && rest[i] == h && SameName(h.name, name)
                 && forall j :: 0 <= j < i ==> !SameName(rest[j].name, name);
        assert hosts[i + 1] == h;
      }
    }
  }

  // ---------------------------------------------------------------- what an answer says

  /** An independent reader of answers: follows the pointer of the answer's name, and gives the labels
      there, the type, class and time to live, and the address. */
  datatype Record = Record(labels: Option<seq<Text>>, kind: nat, cls: nat, ttl: nat, rdata: Text)

  function Word(b: Text, at: nat): nat
    requires at + 2 <= |b|
  {
    b[at] as int * 256 + b[at + 1] as int
  }

  /** The last sixteen bytes of a reply, as one record with a pointer for its name. */
  function ReadAnswer(reply: Text): Option<Record>
    requires |reply| >= HEADER + 16
  {
    var at := |reply| - 16;
    if Word(reply, at) < 0xC000 || Word(reply, at) - 0xC000 < HEADER || Word(reply, at) - 0xC000 > |reply| || Word(reply, at + 10) != 4 then None
    else
      Some(Record(Labels(reply, Word(reply, at) - 0xC000), Word(reply, at + 2), Word(reply, at + 4),
                  Word(reply, at + 6) * 0x10000 + Word(reply, at + 8), reply[at + 12..]))
  }

  /** For every name of labels without zero bytes, the root apart: the query is answered exactly when a
      configured host has the dotted name apart from case, and the reply fits; otherwise nothing
      happens. */
  lemma AnswersExactly(hosts: seq<Host>, msg: Text, labels: seq<Text>)
    requires (forall i :: 0 <= i < |labels| ==> 0 < |labels[i]| < 256 && NulFree(labels[i])) && Query(msg, labels)
    requires labels != []
    ensures Reply(hosts, msg).Sent? <==> Known(hosts, Dotted(labels)) && |msg| + 16 <= 512
    ensures Reply(hosts, msg).Sent? ==>
      exists h :: FirstWith(hosts, h, Dotted(labels)) && Reply(hosts, msg) == Sent(Answer(msg, h))
    ensures !Reply(hosts, msg).Sent? ==> Reply(hosts, msg) == Silent
  {
    hide FirstHost, Labels, Answer, Wire, Joined, SameName;
    QueryReads(msg, labels);
    DottedNulFree(labels);
    WholeString(Dotted(labels));
    FirstHostIsFirst(hosts, Dotted(labels));
    if Reply(hosts, msg).Sent? {
      assert FirstWith(hosts, FirstHost(hosts, Dotted(labels)).value, Dotted(labels));
    }
  }

  /** The message asks for the name of the labels. */
  predicate Asks(msg: Text, labels: seq<Text>) {
    (forall i :: 0 <= i < |labels| ==> 0 < |labels[i]| < 256) && Query(msg, labels)
  }

  /** What is looked up: the dotted name, up to a zero byte in it. */
  ghost predicate AsksForHost(hosts: seq<Host>, msg: Text, labels: seq<Text>) {
    Asks(msg, labels) && labels != [] && Known(hosts, Image.UpToNul(Dotted(labels)))
  }

  /** Whatever the message: it is answered exactly when it asks, with one question, for the name of a
      configured host, and the reply fits. */
  lemma AnswersOnly(hosts: seq<Host>, msg: Text)
    requires |msg| >= HEADER
    ensures Reply(hosts, msg).Sent? <==> |msg| + 16 <= 512 && exists labels: seq<Text> :: AsksForHost(hosts, msg, labels)
  {
    hide FirstHost, Labels, Answer, Wire, Joined, SameName, Known, OneQuestion;
    if labels: seq<Text> :| AsksForHost(hosts, msg, labels) {
      QueryReads(msg, labels);
      FirstHostIsFirst(hosts, Image.UpToNul(Dotted(labels)));
    }
    if Reply(hosts, msg).Sent? {
      var data := msg[HEADER..];
      var labels := Labels(data, 0).value;
      LabelsAreWire(data, 0);
      assert msg[HEADER..HEADER + |Wire(labels)|] == data[0..|Wire(labels)|];
      FirstHostIsFirst(hosts, Image.UpToNul(Dotted(labels)));
      assert AsksForHost(hosts, msg, labels);
    }
  }

  /** Dotted names: a label is its own name, and one more label stands behind a dot. */
  lemma DottedIs(labels: seq<Text>, l: Text)
    ensures Dotted([l]) == l
    ensures labels != [] ==> Dotted(labels + [l]) == Dotted(labels) + [0x2E] + l
  {
    assert [l][..0] == [];
    assert Joined([l][..0]) == [];
    assert Joined([l]) == l + [DOT];
    assert (labels + [l])[..|labels|] == labels;
  }

  /** The write in front of the buffer happens exactly for the name of the root, and always for it,
      whatever follows the name. */
  lemma UnderrunsExactly(hosts: seq<Host>, msg: Text)
    requires |msg| >= HEADER
    ensures Reply(hosts, msg) == Underrun <==> OneQuestion(msg) && |msg| >= HEADER + 5 && msg[HEADER] == 0
    ensures Reply(hosts, msg) == Underrun <==> Query(msg, [])
  {
    hide FirstHost, Answer, Joined;
    if |msg| > HEADER {
      assert msg[HEADER..][0] == msg[HEADER];
      assert msg[HEADER..HEADER + 1] == [msg[HEADER]];
    }
  }

  /** A plain query for the root's address is one. */
  lemma RootQueryUnderruns(hosts: seq<Host>)
    ensures Reply(hosts, [0, 1, 1, 0, 0, 1, 0, 0, 0, 0, 0, 0] + [0, 0, 1, 0, 1]) == Underrun
  {
    var msg: Text := [0, 1, 1, 0, 0, 1, 0, 0, 0, 0, 0, 0] + [0, 0, 1, 0, 1];
    assert msg[4..12] == [0, 1, 0, 0, 0, 0, 0, 0];
    UnderrunsExactly(hosts, msg);
  }

  /** The reply repeats the question, counts one answer, and its record names the question by the
      pointer, with the host's address. */
  lemma AnswerSays(msg: Text, labels: seq<Text>, h: Host)
    requires (forall i :: 0 <= i < |labels| ==> 0 < |labels[i]| < 256) && Query(msg, labels) && labels != [] && |h.addr| == 4
    ensures var r := Answer(msg, h);
      && |r| == |msg| + 16 && r[HEADER..|msg|] == msg[HEADER..]
      && Word(r, 0) == Word(msg, 0) && Word(r, 2) == 0x8180 && Word(r, 4) == 1 && Word(r, 6) == 1
      && ReadAnswer(r) == Some(Record(Some(labels), 1, 1, 2556, h.addr))
  {
    hide Labels, Wire;
    var r, n := Answer(msg, h), |Wire(labels)|;
    var at := |msg|;
    AnswerBytes(msg, h);
    var before, after := r[..HEADER], r[HEADER + n..];
    assert r[HEADER..HEADER + n] == msg[HEADER..HEADER + n];
    assert before + Wire(labels) + after == r;
    WireReads(before, labels, after);
  }

  lemma AnswerBytes(msg: Text, h: Host)
    requires |msg| >= HEADER && |h.addr| == 4
    ensures var r := Answer(msg, h);
      && |r| == |msg| + 16 && r[HEADER..|msg|] == msg[HEADER..]
      && (forall i :: HEADER <= i < |msg| ==> r[i] == msg[i])
      && r[..HEADER] == msg[..2] + [0x81, 0x80] + msg[4..6] + [0, 1] + msg[8..HEADER]
      && r[|msg|..|msg| + 12] == [0xC0, 0x0C, 0, 1, 0, 1, 0, 0, 0x09, 0xFC, 0, 4]
      && r[|msg| + 12..] == h.addr
  {
  }
}
