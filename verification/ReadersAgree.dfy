/**
 Whole sessions.  Both readers deliver what the ideal reader delivers on the stream as one piece,
 whatever the socket hands out at each call; so they agree with each other, and with the sender.
 */
module ReadersAgree {
  import opened Bytes
  import opened PacketStream
  import opened ShipReader
  import opened LoginReader

  function Min(a: int, b: int): int {
    if a < b then a else b
  }

  /** What a recv for at most `want` bytes returns at its `call`-th call, with `left` bytes to come:
      anything from one byte on. */
  function Piece(cut: nat -> nat, call: nat, want: int, left: nat): (n: nat)
    requires want > 0 && left > 0
    ensures 0 < n <= left && n <= want
  {
    Min(Min(if cut(call) == 0 then 1 else cut(call), want), left)
  }

  ghost predicate Tracks<S>(w: Wire<S>, key: S, stream: seq<octet>, o: Outcome<S>)
    requires w.hs == 4 || w.hs == 8
  {
    Run(w, Rx(key, None, stream)) == o
  }

  /** One more piece of a stream. */
  lemma NextPiece<S>(w: Wire<S>, key: S, stream: seq<octet>, pos: nat, n: nat, o: Outcome<S>)
    requires (w.hs == 4 || w.hs == 8) && pos + n <= |stream| && Sane(w, Rx(key, None, stream))
    requires Tracks(w, key, stream[..pos], o) && o.rv == 0
    ensures Sane(w, More(o.rx, stream[pos..pos + n]))
    ensures var o' := Run(w, More(o.rx, stream[pos..pos + n]));
      Tracks(w, key, stream[..pos + n], Outcome(o.packets + o'.packets, o'.rx, o'.rv))
  {
    var rx := Rx(key, None, stream[..pos]);
    var piece := stream[pos..pos + n];
    assert stream[..pos + n] == stream[..pos] + piece;
    assert stream == stream[..pos + n] + stream[pos + n..];
    SaneAppend(w, More(rx, piece), stream[pos + n..]);
    SaneAppend(w, rx, piece);
    RunAppend(w, rx, piece);
  }

  lemma StartsEmpty<S>(w: Wire<S>, key: S)
    requires w.hs == 4 || w.hs == 8
    ensures Tracks(w, key, [], Outcome([], Rx(key, None, []), 0))
  {
  }

  lemma EndsWhole<S>(w: Wire<S>, key: S, stream: seq<octet>, o: Outcome<S>)
    requires (w.hs == 4 || w.hs == 8) && Tracks(w, key, stream, o)
    ensures Run(w, Rx(key, None, stream)) == o
  {
  }

  lemma StopsEarly<S>(w: Wire<S>, key: S, stream: seq<octet>, pos: nat, o: Outcome<S>)
    requires (w.hs == 4 || w.hs == 8) && pos <= |stream|
    requires Tracks(w, key, stream[..pos], o) && o.rv != 0
    ensures Run(w, Rx(key, None, stream)).packets == o.packets && Run(w, Rx(key, None, stream)).rv == o.rv
  {
    RunAppend(w, Rx(key, None, stream[..pos]), stream[pos..]);
    assert stream == stream[..pos] + stream[pos..];
  }

  /** One call of the ship server's reader, on the next piece of the stream. */
  method ShipRead<S(!new)>(c: ShipClient<S>, key: S, stream: seq<octet>, pos: nat, n: nat, ghost o: Outcome<S>)
    returns (rv: int, ghost o': Outcome<S>)
    requires c.Valid() && Sane(c.w, Rx(key, None, stream)) && 0 < n <= c.Capacity() && pos + n <= |stream|
    requires Tracks(c.w, key, stream[..pos], o) && o == Outcome(c.delivered, c.Rx(), 0)
    modifies c
    ensures Tracks(c.w, key, stream[..pos + n], o') && rv == o'.rv && c.delivered == o'.packets
    ensures rv == 0 ==> c.Valid() && o' == Outcome(c.delivered, c.Rx(), 0)
  {
    NextPiece(c.w, key, stream, pos, n, o);
    ghost var more := Run(c.w, More(o.rx, stream[pos..pos + n]));
    o' := Outcome(o.packets + more.packets, more.rx, more.rv);
    rv := c.ProcessPkt(stream[pos..pos + n]);
  }

  /** The ship server reads a stream to its end. */
  method ShipSession<S(!new)>(w: Wire<S>, key: S, stream: seq<octet>, cut: nat -> nat)
    returns (rv: int, ghost delivered: seq<seq<octet>>)
    requires ValidWire(w) && Sane(w, Rx(key, None, stream))
    ensures rv == Run(w, Rx(key, None, stream)).rv && delivered == Run(w, Rx(key, None, stream)).packets
  {
    hide Run, Sane, Tracks;
    var c := new ShipClient<S>(w, key);
    var pos, call := 0, 0;
    rv := 0;
    ghost var o := Outcome([], c.Rx(), 0);
    assert stream[..0] == [];
    StartsEmpty(w, key);
    while pos < |stream| && rv == 0
      invariant pos <= |stream| && c.w == w && fresh(c)
      invariant Tracks(w, key, stream[..pos], o) && rv == o.rv && c.delivered == o.packets
      invariant rv == 0 ==> c.Valid() && o == Outcome(c.delivered, c.Rx(), 0)
      decreases |stream| - pos
    {
      var n := Piece(cut, call, c.Capacity(), |stream| - pos);
      rv, o := ShipRead(c, key, stream, pos, n, o);
      pos, call := pos + n, call + 1;
    }
    delivered := c.delivered;
    if rv == 0 {
      assert stream[..pos] == stream;
      EndsWhole(w, key, stream, o);
    } else {
      StopsEarly(w, key, stream, pos, o);
    }
  }

  /** One call of the login server's reader, on the next piece of the stream. */
  method LoginRead<S(!new)>(c: LoginClient<S>, key: S, stream: seq<octet>, pos: nat, n: nat, ghost o: Outcome<S>)
    returns (rv: int, ghost o': Outcome<S>)
    requires c.Valid() && Sane(c.w, Rx(key, None, stream)) && 0 < n <= c.Want() && pos + n <= |stream|
    requires Tracks(c.w, key, stream[..pos], o) && o == Outcome(c.delivered, c.Rx(), 0)
    modifies c
    ensures Tracks(c.w, key, stream[..pos + n], o') && rv == o'.rv && c.delivered == o'.packets
    ensures rv == 0 ==> c.Valid() && o' == Outcome(c.delivered, c.Rx(), 0)
  {
    NextPiece(c.w, key, stream, pos, n, o);
    ghost var more := Run(c.w, More(o.rx, stream[pos..pos + n]));
    o' := Outcome(o.packets + more.packets, more.rx, more.rv);
    rv := c.ReadFromClient(stream[pos..pos + n]);
  }

  /** The login server reads a stream to its end. */
  method LoginSession<S(!new)>(w: Wire<S>, key: S, stream: seq<octet>, cut: nat -> nat)
    returns (rv: int, ghost delivered: seq<seq<octet>>)
    requires ValidWire(w) && w.low == w.hs && Sane(w, Rx(key, None, stream))
    ensures rv == Run(w, Rx(key, None, stream)).rv && delivered == Run(w, Rx(key, None, stream)).packets
  {
    hide Run, Sane, Tracks;
    var c := new LoginClient<S>(w, key);
    var pos, call := 0, 0;
    rv := 0;
    ghost var o := Outcome([], c.Rx(), 0);
    assert stream[..0] == [];
    StartsEmpty(w, key);
    while pos < |stream| && rv == 0
      invariant pos <= |stream| && c.w == w && fresh(c)
      invariant Tracks(w, key, stream[..pos], o) && rv == o.rv && c.delivered == o.packets
      invariant rv == 0 ==> c.Valid() && o == Outcome(c.delivered, c.Rx(), 0)
      decreases |stream| - pos
    {
      var n := Piece(cut, call, c.Want(), |stream| - pos);
      rv, o := LoginRead(c, key, stream, pos, n, o);
      pos, call := pos + n, call + 1;
    }
    delivered := c.delivered;
    if rv == 0 {
      assert stream[..pos] == stream;
      EndsWhole(w, key, stream, o);
    } else {
      StopsEarly(w, key, stream, pos, o);
    }
  }

  /** The two servers deliver the same packets of the same stream, however each of them is served by
      its socket. */
  method SameDelivery<S(!new)>(w: Wire<S>, key: S, stream: seq<octet>, shipCut: nat -> nat, loginCut: nat -> nat)
    returns (ghost ship: seq<seq<octet>>, ghost login: seq<seq<octet>>)
    requires ValidWire(w) && w.low == w.hs && Sane(w, Rx(key, None, stream))
    ensures ship == login == Run(w, Rx(key, None, stream)).packets
  {
    var rv1, rv2;
    rv1, ship := ShipSession(w, key, stream, shipCut);
    rv2, login := LoginSession(w, key, stream, loginCut);
  }

  // ---------------------------------------------------------------- the sender

  /** `enc` encrypts `word` so that the wire's decryption gives it back, in step. */
  ghost predicate Inverts<S(!new)>(w: Wire<S>, enc: (S, seq<octet>) -> (S, seq<octet>), k: S, word: seq<octet>) {
    |enc(k, word).1| == w.hs && w.dec(k, enc(k, word).1) == (enc(k, word).0, word)
  }

  ghost predicate Inverse<S(!new)>(w: Wire<S>, enc: (S, seq<octet>) -> (S, seq<octet>)) {
    forall k: S, word: seq<octet> :: |word| == w.hs ==> Inverts(w, enc, k, word)
  }

  /** The sender's side: encrypts whole packets. */
  function Encrypt<S>(w: Wire<S>, enc: (S, seq<octet>) -> (S, seq<octet>), k: S, data: seq<octet>): (S, seq<octet>)
    requires w.hs > 0
  {
    Crypt(w.(dec := enc), k, data)
  }

  /** One word, then the rest. */
  lemma CryptStep<S>(w: Wire<S>, k: S, word: seq<octet>, rest: seq<octet>)
    requires w.hs > 0 && |word| == w.hs
    ensures var (k1, c) := w.dec(k, word);
      Crypt(w, k, word + rest) == (Crypt(w, k1, rest).0, c + Crypt(w, k1, rest).1)
  {
    assert (word + rest)[..w.hs] == word && (word + rest)[w.hs..] == rest;
  }

  lemma {:induction false} EncryptInverts<S(!new)>(w: Wire<S>, enc: (S, seq<octet>) -> (S, seq<octet>), k: S, data: seq<octet>)
    requires ValidWire(w) && Inverse(w, enc) && Whole(w.hs, |data|)
    ensures Crypt(w, k, Encrypt(w, enc, k, data).1) == (Encrypt(w, enc, k, data).0, data)
    decreases |data|
  {
    if |data| >= w.hs {
      hide Crypt, Encrypt, ValidWire;
      var word, rest := data[..w.hs], data[w.hs..];
      assert Inverts(w, enc, k, word);
      var (k1, c) := enc(k, word);
      WholeRest(w.hs, |data|);
      EncryptInverts(w, enc, k1, rest);
      CryptStep(w.(dec := enc), k, word, rest);
      CryptStep(w, k, c, Encrypt(w, enc, k1, rest).1);
      assert word + rest == data;
    }
  }

  /** A packet as the sender must form it: its length on the wire is what its header declares. */
  ghost predicate Framed<S>(w: Wire<S>, p: seq<octet>)
    requires w.hs == 4 || w.hs == 8
  {
    |p| >= w.hs && InRange(w, p[..w.hs]) && |p| == Rounded(w.hs, w.declared(p[..w.hs]))
  }

  /** And the handler takes it. */
  ghost predicate WellFormed<S>(w: Wire<S>, p: seq<octet>)
    requires w.hs == 4 || w.hs == 8
  {
    Framed(w, p) && w.handle(p) == 0
  }

  lemma {:induction false} EncryptLength<S(!new)>(w: Wire<S>, enc: (S, seq<octet>) -> (S, seq<octet>), k: S, data: seq<octet>)
    requires ValidWire(w) && Inverse(w, enc) && Whole(w.hs, |data|)
    ensures |Encrypt(w, enc, k, data).1| == |data|
    decreases |data|
  {
    if |data| >= w.hs {
      assert Inverts(w, enc, k, data[..w.hs]);
      EncryptLength(w, enc, enc(k, data[..w.hs]).0, data[w.hs..]);
    }
  }

  /** The header and the body of an encrypted packet, as the reader meets them. */
  lemma PacketBytes<S(!new)>(w: Wire<S>, enc: (S, seq<octet>) -> (S, seq<octet>), k: S, p: seq<octet>)
    requires ValidWire(w) && Inverse(w, enc) && Framed(w, p)
    ensures
      var (k', bytes) := Encrypt(w, enc, k, p);
      && |bytes| == |p| >= w.hs
      && w.dec(k, bytes[..w.hs]) == (enc(k, p[..w.hs]).0, p[..w.hs])
      && Crypt(w, enc(k, p[..w.hs]).0, bytes[w.hs..]) == (k', p[w.hs..])
  {
    var h, body := p[..w.hs], p[w.hs..];
    assert Inverts(w, enc, k, h);
    var (k1, c) := enc(k, h);
    var (k', e) := Encrypt(w, enc, k1, body);
    RoundedFits(w.hs, w.declared(h));
    EncryptInverts(w, enc, k1, body);
    EncryptLength(w, enc, k1, body);
    assert (c + e)[..w.hs] == c && (c + e)[w.hs..] == e;
  }

  lemma HeaderThenPacket<S>(w: Wire<S>, k: S, k1: S, k2: S, p: seq<octet>, bytes: seq<octet>, more: seq<octet>)
    requires (w.hs == 4 || w.hs == 8) && Framed(w, p) && |bytes| == |p|
    requires w.dec(k, bytes[..w.hs]) == (k1, p[..w.hs]) && Crypt(w, k1, bytes[w.hs..]) == (k2, p[w.hs..])
    ensures Next(w, Rx(k, None, bytes + more)) == Header(Rx(k1, Some(p[..w.hs]), bytes[w.hs..] + more))
    ensures Next(w, Rx(k1, Some(p[..w.hs]), bytes[w.hs..] + more)) == Packet(p, Rx(k2, None, more))
  {
    hide Crypt, InRange, Rounded;
    var e := bytes[w.hs..];
    assert (bytes + more)[..w.hs] == bytes[..w.hs] && (bytes + more)[w.hs..] == e + more;
    assert (e + more)[..|e|] == e && (e + more)[|e|..] == more;
    assert p[..w.hs] + p[w.hs..] == p;
  }

  /** The bytes that one packet puts on the wire are read as that packet, whatever follows. */
  lemma ReadsOnePacket<S(!new)>(w: Wire<S>, enc: (S, seq<octet>) -> (S, seq<octet>), k: S, p: seq<octet>, more: seq<octet>)
    requires ValidWire(w) && Inverse(w, enc) && WellFormed(w, p)
    ensures var (k', bytes) := Encrypt(w, enc, k, p);
      && Run(w, Rx(k, None, bytes + more)) ==
           Outcome([p] + Run(w, Rx(k', None, more)).packets, Run(w, Rx(k', None, more)).rx, Run(w, Rx(k', None, more)).rv)
      && (Sane(w, Rx(k', None, more)) ==> Sane(w, Rx(k, None, bytes + more)))
  {
    var (k', bytes) := Encrypt(w, enc, k, p);
    var k1 := enc(k, p[..w.hs]).0;
    PacketBytes(w, enc, k, p);
    HeaderThenPacket(w, k, k1, k', p, bytes, more);
    assert Run(w, Rx(k, None, bytes + more)) == Run(w, Rx(k1, Some(p[..w.hs]), bytes[w.hs..] + more));
  }

  /** What is sent is what is delivered: reading the encrypted packets gives the packets. */
  lemma {:induction false} SentIsDelivered<S(!new)>(w: Wire<S>, enc: (S, seq<octet>) -> (S, seq<octet>), k: S, ps: seq<seq<octet>>)
    requires ValidWire(w) && Inverse(w, enc) && forall i :: 0 <= i < |ps| ==> WellFormed(w, ps[i])
    ensures var (k', stream) := Encrypt(w, enc, k, Flatten(ps));
      Sane(w, Rx(k, None, stream)) && Run(w, Rx(k, None, stream)) == Outcome(ps, Rx(k', None, []), 0)
    decreases |ps|
  {
    if ps != [] {
      var p, rest := ps[0], ps[1..];
      var (k1, bytes) := Encrypt(w, enc, k, p);
      SentIsDelivered(w, enc, k1, rest);
      RoundedFits(w.hs, w.declared(p[..w.hs]));
      assert ValidWire(w.(dec := enc)) by {
        forall s: S, word: seq<octet> | |word| == w.hs
          ensures |enc(s, word).1| == w.hs
        {
          assert Inverts(w, enc, s, word);
        }
      }
      CryptAppend(w.(dec := enc), k, p, Flatten(rest));
      ReadsOnePacket(w, enc, k, p, Encrypt(w, enc, k1, Flatten(rest)).1);
      assert [p] + rest == ps;
    }
  }

  /** A packet that the handler refuses is read like any other, and ends the connection with the handler's
      code, whatever follows. */
  lemma ReadsRefused<S(!new)>(w: Wire<S>, enc: (S, seq<octet>) -> (S, seq<octet>), k: S, p: seq<octet>, more: seq<octet>)
    requires ValidWire(w) && Inverse(w, enc) && Framed(w, p) && w.handle(p) != 0
    ensures var bytes := Encrypt(w, enc, k, p).1;
      && Run(w, Rx(k, None, bytes + more)).packets == [p] && Run(w, Rx(k, None, bytes + more)).rv == w.handle(p)
      && Sane(w, Rx(k, None, bytes + more))
  {
    hide Crypt, Encrypt;
    var (k', bytes) := Encrypt(w, enc, k, p);
    var k1 := enc(k, p[..w.hs]).0;
    PacketBytes(w, enc, k, p);
    HeaderThenPacket(w, k, k1, k', p, bytes, more);
  }

  /** So what is sent is delivered up to the first packet that is refused, which is the last. */
  lemma SentUntilRefused<S(!new)>(w: Wire<S>, enc: (S, seq<octet>) -> (S, seq<octet>), k: S, ps: seq<seq<octet>>, p: seq<octet>, more: seq<octet>)
    requires ValidWire(w) && Inverse(w, enc) && (forall i :: 0 <= i < |ps| ==> WellFormed(w, ps[i]))
    requires Framed(w, p) && w.handle(p) != 0
    ensures var (k', first) := Encrypt(w, enc, k, Flatten(ps));
      var stream := first + (Encrypt(w, enc, k', p).1 + more);
      Run(w, Rx(k, None, stream)).packets == ps + [p] && Run(w, Rx(k, None, stream)).rv == w.handle(p)
  {
    hide Encrypt, Run, Framed, WellFormed;
    var (k', first) := Encrypt(w, enc, k, Flatten(ps));
    var rest := Encrypt(w, enc, k', p).1 + more;
    SentIsDelivered(w, enc, k, ps);
    RunAppend(w, Rx(k, None, first), rest);
    assert [] + rest == rest;
    ReadsRefused(w, enc, k', p, more);
  }
}
