/**
 Packets on an encrypted byte stream: what the two readers must deliver.

 A stream is decrypted word by word; the header of a packet is one word.  `Move` is one step of an
 ideal reader that holds the cipher state, the header it has decrypted (if any) and the bytes it has
 not used.  `Run` repeats it as far as the bytes go.  `RunAppend` says that reading may be
 interrupted anywhere.
 */
module PacketStream {
  import opened Bytes

  type octet = bv8

  /** What a connection fixes: the header size, which is the word size of its cipher, the decryption
      of one word, the length a header declares, the packet handler, whose nonzero results end the
      connection, and the least length that a header may declare: the ship server rounds any length but
      zero up to a header, the login server needs a header's length. */
  datatype Wire<!S> = Wire(
    hs: nat,
    dec: (S, seq<octet>) -> (S, seq<octet>),
    declared: seq<octet> -> nat,
    handle: seq<octet> -> int,
    low: nat)

  ghost predicate ValidWire<S(!new)>(w: Wire<S>) {
    && (w.hs == 4 || w.hs == 8) && 0 < w.low <= w.hs
    && forall k: S, word: seq<octet> :: |word| == w.hs ==> |w.dec(k, word).1| == w.hs
  }

  /** `n` bytes are a whole number of words. */
  predicate Whole(hs: nat, n: int) {
    if hs == 4 then n % 4 == 0 else n % 8 == 0
  }

  /** Decrypts a whole number of words. */
  function Crypt<S>(w: Wire<S>, k: S, data: seq<octet>): (S, seq<octet>)
    requires w.hs > 0
    decreases |data|
  {
    if |data| < w.hs then (k, [])
    else
      var (k1, word) := w.dec(k, data[..w.hs]);
      var (k2, rest) := Crypt(w, k1, data[w.hs..]);
      (k2, word + rest)
  }

  lemma Regroup(a: seq<octet>, b: seq<octet>, c: seq<octet>)
    ensures a + (b + c) == (a + b) + c
  {
  }

  lemma CutAppend(a: seq<octet>, b: seq<octet>, n: nat)
    requires n <= |a|
    ensures (a + b)[..n] == a[..n] && (a + b)[n..] == a[n..] + b
  {
  }

  lemma Multiples(q: int)
    ensures 4 * q % 4 == 0 && 8 * q % 8 == 0
  {
  }

  lemma WholeRest(hs: nat, n: int)
    requires (hs == 4 || hs == 8) && Whole(hs, n)
    ensures Whole(hs, n - hs)
  {
    if hs == 4 {
      assert n - 4 == 4 * (n / 4 - 1);
      Multiples(n / 4 - 1);
    } else {
      assert n - 8 == 8 * (n / 8 - 1);
      Multiples(n / 8 - 1);
    }
  }

  /** Decryption composes over word-multiple pieces. */
  lemma {:induction false} CryptAppend<S(!new)>(w: Wire<S>, k: S, a: seq<octet>, b: seq<octet>)
    requires ValidWire(w) && Whole(w.hs, |a|)
    ensures Crypt(w, k, a + b).0 == Crypt(w, Crypt(w, k, a).0, b).0
    ensures Crypt(w, k, a + b).1 == Crypt(w, k, a).1 + Crypt(w, Crypt(w, k, a).0, b).1
    decreases |a|
  {
    if |a| < w.hs {
      assert a == [] && a + b == b;
      assert [] + Crypt(w, k, b).1 == Crypt(w, k, b).1;
    } else {
      var k1, word := w.dec(k, a[..w.hs]).0, w.dec(k, a[..w.hs]).1;
      WholeRest(w.hs, |a|);
      CryptAppend(w, k1, a[w.hs..], b);
      CutAppend(a, b, w.hs);
      Regroup(word, Crypt(w, k1, a[w.hs..]).1, Crypt(w, Crypt(w, k, a).0, b).1);
    }
  }

  // ---------------------------------------------------------------- packet lengths

  /** The length on the wire, in 16-bit arithmetic: rounded up to whole words. */
  function Rounded(hs: nat, n: nat): nat
    requires hs == 4 || hs == 8
  {
    if Whole(hs, n) then n else (n - (if hs == 4 then n % 4 else n % 8) + hs) % 0x10000
  }

  /** Rounding up leaves a length the reader can use, a header at least, exactly for the declared lengths
      from 1 to 65536 minus the header size; beyond that the 16-bit sum wraps to zero. */
  lemma RoundedFits(hs: nat, n: nat)
    requires (hs == 4 || hs == 8) && n < 0x10000
    ensures 0 < n <= 0x10000 - hs ==> n <= Rounded(hs, n) < n + hs && hs <= Rounded(hs, n) <= 0x10000 - hs
    ensures Rounded(hs, n) == 0 <==> n == 0 || n > 0x10000 - hs
    ensures Whole(hs, Rounded(hs, n))
  {
    var q := n / hs;
    if hs == 4 {
      assert n == 4 * q + n % 4;
      RoundedUp(4, q + 1);
    } else {
      assert n == 8 * q + n % 8;
      RoundedUp(8, q + 1);
    }
  }

  /** In 16 bits the next word is at zero exactly when it is the word behind the last one. */
  lemma RoundedUp(hs: nat, k: nat)
    requires (hs == 4 || hs == 8) && 0 < k && hs * k <= 0x10000
    ensures hs * k % 0x10000 == if hs * k == 0x10000 then 0 else hs * k
    ensures Whole(hs, hs * k % 0x10000)
    ensures hs * k < 0x10000 ==> hs * k <= 0x10000 - hs
  {
    Multiples(k);
  }

  predicate InRange<S>(w: Wire<S>, h: seq<octet>) {
    w.low <= w.declared(h) <= 0x10000 - w.hs
  }

  /** The bytes that follow the header. */
  function BodyLen<S>(w: Wire<S>, h: seq<octet>): nat
    requires w.hs == 4 || w.hs == 8
  {
    var n := Rounded(w.hs, w.declared(h));
    if n >= w.hs then n - w.hs else 0
  }

  // ---------------------------------------------------------------- the ideal reader

  datatype Rx<S> = Rx(key: S, hdr: Option<seq<octet>>, rest: seq<octet>)

  datatype Move<S> = Wait | Header(rx: Rx<S>) | Packet(packet: seq<octet>, rx: Rx<S>)

  function Next<S>(w: Wire<S>, rx: Rx<S>): Move<S>
    requires w.hs == 4 || w.hs == 8
  {
    match rx.hdr
    case None =>
      if |rx.rest| < w.hs then Wait
      else
        var (k, h) := w.dec(rx.key, rx.rest[..w.hs]);
        Header(Rx(k, Some(h), rx.rest[w.hs..]))
    case Some(h) =>
      var n := BodyLen(w, h);
      if |rx.rest| < n then Wait
      else
        var (k, body) := Crypt(w, rx.key, rx.rest[..n]);
        Packet(h + body, Rx(k, None, rx.rest[n..]))
  }

  datatype Outcome<S> = Outcome(packets: seq<seq<octet>>, rx: Rx<S>, rv: int)

  /** Reads as far as the bytes go, or up to the first packet whose handler fails. */
  function Run<S>(w: Wire<S>, rx: Rx<S>): Outcome<S>
    requires w.hs == 4 || w.hs == 8
    decreases |rx.rest|, if rx.hdr.Some? then 1 else 0
  {
    match Next(w, rx)
    case Wait => Outcome([], rx, 0)
    case Header(rx1) => Run(w, rx1)
    case Packet(p, rx1) =>
      if w.handle(p) != 0 then Outcome([p], rx1, w.handle(p))
      else
        var o := Run(w, rx1);
        Outcome([p] + o.packets, o.rx, o.rv)
  }

  /** Every header that the reader meets declares a usable length. */
  ghost predicate Sane<S>(w: Wire<S>, rx: Rx<S>)
    requires w.hs == 4 || w.hs == 8
    decreases |rx.rest|, if rx.hdr.Some? then 1 else 0
  {
    && (rx.hdr.Some? ==> InRange(w, rx.hdr.value))
    && match Next(w, rx)
       case Wait => true
       case Header(rx1) => Sane(w, rx1)
       case Packet(p, rx1) => w.handle(p) == 0 ==> Sane(w, rx1)
  }

  function More<S>(rx: Rx<S>, data: seq<octet>): Rx<S> {
    Rx(rx.key, rx.hdr, rx.rest + data)
  }

  function Then<S>(w: Wire<S>, o: Outcome<S>, data: seq<octet>): Outcome<S>
    requires w.hs == 4 || w.hs == 8
  {
    if o.rv != 0 then Outcome(o.packets, More(o.rx, data), o.rv)
    else
      var o' := Run(w, More(o.rx, data));
      Outcome(o.packets + o'.packets, o'.rx, o'.rv)
  }

  lemma NextMore<S>(w: Wire<S>, rx: Rx<S>, data: seq<octet>)
    requires (w.hs == 4 || w.hs == 8) && !Next(w, rx).Wait?
    ensures Next(w, More(rx, data)) ==
      match Next(w, rx)
      case Header(rx1) => Header(More(rx1, data))
      case Packet(p, rx1) => Packet(p, More(rx1, data))
  {
    var n := if rx.hdr.None? then w.hs else BodyLen(w, rx.hdr.value);
    assert (rx.rest + data)[..n] == rx.rest[..n];
    assert (rx.rest + data)[n..] == rx.rest[n..] + data;
  }

  /** Reading a stream in two goes is the same as reading it in one. */
  lemma {:induction false} RunAppend<S>(w: Wire<S>, rx: Rx<S>, data: seq<octet>)
    requires w.hs == 4 || w.hs == 8
    ensures Run(w, More(rx, data)) == Then(w, Run(w, rx), data)
    decreases |rx.rest|, if rx.hdr.Some? then 1 else 0
  {
    match Next(w, rx)
    case Wait =>
      assert [] + Run(w, More(rx, data)).packets == Run(w, More(rx, data)).packets;
    case Header(rx1) =>
      NextMore(w, rx, data);
      RunAppend(w, rx1, data);
    case Packet(p, rx1) =>
      NextMore(w, rx, data);
      if w.handle(p) == 0 {
        RunAppend(w, rx1, data);
        var o, o' := Run(w, rx1), Run(w, More(Run(w, rx1).rx, data));
        assert [p] + (o.packets + o'.packets) == ([p] + o.packets) + o'.packets;
      }
  }

  /** A usable stream stays usable in parts. */
  lemma {:induction false} SaneAppend<S>(w: Wire<S>, rx: Rx<S>, data: seq<octet>)
    requires (w.hs == 4 || w.hs == 8) && Sane(w, More(rx, data))
    ensures Sane(w, rx)
    ensures Run(w, rx).rv == 0 ==> Sane(w, More(Run(w, rx).rx, data))
    decreases |rx.rest|, if rx.hdr.Some? then 1 else 0
  {
    match Next(w, rx)
    case Wait =>
    case Header(rx1) =>
      NextMore(w, rx, data);
      SaneAppend(w, rx1, data);
    case Packet(p, rx1) =>
      NextMore(w, rx, data);
      if w.handle(p) == 0 {
        SaneAppend(w, rx1, data);
      }
  }

  /** Between reads less than a header, or less than a body, is left over: a little less than 64 KiB,
      so there is always room for more. */
  ghost predicate Settled<S>(w: Wire<S>, rx: Rx<S>)
    requires w.hs == 4 || w.hs == 8
  {
    Next(w, rx).Wait? && (rx.hdr.Some? ==> InRange(w, rx.hdr.value))
  }

  lemma {:induction false} RunSettles<S>(w: Wire<S>, rx: Rx<S>)
    requires (w.hs == 4 || w.hs == 8) && Sane(w, rx)
    ensures Run(w, rx).rv == 0 ==> Settled(w, Run(w, rx).rx)
    decreases |rx.rest|, if rx.hdr.Some? then 1 else 0
  {
    match Next(w, rx)
    case Wait =>
    case Header(rx1) => RunSettles(w, rx1);
    case Packet(p, rx1) =>
      if w.handle(p) == 0 {
        RunSettles(w, rx1);
      }
  }

  // ---------------------------------------------------------------- every byte once, in order

  function Flatten(pieces: seq<seq<octet>>): seq<octet> {
    if pieces == [] then [] else pieces[0] + Flatten(pieces[1..])
  }

  /** What has been decrypted so far: the packets and perhaps one more header. */
  function Decrypted<S>(o: Outcome<S>): seq<octet> {
    Flatten(o.packets) + (if o.rx.hdr.Some? then o.rx.hdr.value else [])
  }

  /** `done` bytes of `rx` have been decrypted, with the result `plain` and the new state `key`. */
  ghost predicate Decrypts<S>(w: Wire<S>, rx: Rx<S>, done: nat, key: S, plain: seq<octet>)
    requires w.hs > 0
  {
    && done <= |rx.rest| && Whole(w.hs, done)
    && Crypt(w, rx.key, rx.rest[..done]).0 == key
    && (if rx.hdr.Some? then rx.hdr.value else []) + Crypt(w, rx.key, rx.rest[..done]).1 == plain
  }

  lemma OneWord<S(!new)>(w: Wire<S>, k: S, word: seq<octet>)
    requires ValidWire(w) && |word| == w.hs
    ensures Crypt(w, k, word) == w.dec(k, word)
  {
    assert word[..w.hs] == word && word[w.hs..] == [];
    assert w.dec(k, word).1 + [] == w.dec(k, word).1;
  }

  lemma DecryptsHeader<S(!new)>(w: Wire<S>, rx: Rx<S>, rx1: Rx<S>, n: nat, key: S, plain: seq<octet>)
    requires ValidWire(w) && Next(w, rx) == Header(rx1) && Decrypts(w, rx1, n, key, plain)
    ensures Decrypts(w, rx, w.hs + n, key, plain)
    ensures rx.rest[w.hs + n..] == rx1.rest[n..]
  {
    var first := rx.rest[..w.hs];
    assert rx.rest[..w.hs + n] == first + rx1.rest[..n];
    OneWord(w, rx.key, first);
    WholeSum(w.hs, w.hs, n);
    CryptAppend(w, rx.key, first, rx1.rest[..n]);
    var all := Crypt(w, rx.key, first + rx1.rest[..n]).1;
    assert [] + all == all;
  }

  lemma WholeBody<S(!new)>(w: Wire<S>, h: seq<octet>)
    requires ValidWire(w) && InRange(w, h)
    ensures Whole(w.hs, BodyLen(w, h))
  {
    RoundedFits(w.hs, w.declared(h));
    WholeRest(w.hs, Rounded(w.hs, w.declared(h)));
  }

  lemma DecryptsBody<S(!new)>(w: Wire<S>, rx: Rx<S>, p: seq<octet>, rx1: Rx<S>)
    requires ValidWire(w) && Next(w, rx) == Packet(p, rx1) && InRange(w, rx.hdr.value)
    ensures var n := BodyLen(w, rx.hdr.value);
      Decrypts(w, rx, n, rx1.key, p) && n <= |rx.rest| && rx1.rest == rx.rest[n..] && rx1.hdr == None
  {
    WholeBody(w, rx.hdr.value);
  }

  lemma SliceOn(s: seq<octet>, n: nat, m: nat)
    requires n + m <= |s|
    ensures s[..n + m] == s[..n] + s[n..][..m] && s[n + m..] == s[n..][m..]
  {
  }

  lemma WholeSum(hs: nat, n: int, m: int)
    requires (hs == 4 || hs == 8) && Whole(hs, n) && Whole(hs, m)
    ensures Whole(hs, n + m)
  {
    if hs == 4 {
      assert n + m == 4 * (n / 4 + m / 4);
      Multiples(n / 4 + m / 4);
    } else {
      assert n + m == 8 * (n / 8 + m / 8);
      Multiples(n / 8 + m / 8);
    }
  }

  lemma DecryptsOn<S(!new)>(w: Wire<S>, rx: Rx<S>, n: nat, p: seq<octet>, rx1: Rx<S>,
                            m: nat, key: S, plain: seq<octet>)
    requires ValidWire(w) && Decrypts(w, rx, n, rx1.key, p) && rx1.rest == rx.rest[n..] && rx1.hdr == None
    requires Decrypts(w, rx1, m, key, plain)
    ensures Decrypts(w, rx, n + m, key, p + plain)
    ensures rx.rest[n + m..] == rx1.rest[m..]
  {
    SliceOn(rx.rest, n, m);
    CryptAppend(w, rx.key, rx.rest[..n], rx1.rest[..m]);
    var y := Crypt(w, rx1.key, rx1.rest[..m]).1;
    assert plain == y;
    Regroup(if rx.hdr.Some? then rx.hdr.value else [], Crypt(w, rx.key, rx.rest[..n]).1, y);
    WholeSum(w.hs, n, m);
  }

  lemma DecryptedCons<S>(p: seq<octet>, o: Outcome<S>)
    ensures Decrypted(Outcome([p] + o.packets, o.rx, o.rv)) == p + Decrypted(o)
  {
    assert ([p] + o.packets)[1..] == o.packets;
  }

  /** The bytes that left the buffer are its first ones, each decrypted once and in its place: the
      packets, joined, are the decryption of those bytes as one piece. */
  ghost predicate InOrder<S>(w: Wire<S>, rx: Rx<S>, o: Outcome<S>)
    requires w.hs > 0
  {
    && |o.rx.rest| <= |rx.rest|
    && rx.rest[|rx.rest| - |o.rx.rest|..] == o.rx.rest
    && Decrypts(w, rx, |rx.rest| - |o.rx.rest|, o.rx.key, Decrypted(o))
  }

  lemma InOrderLast<S(!new)>(w: Wire<S>, rx: Rx<S>, p: seq<octet>, rx1: Rx<S>, rv: int)
    requires ValidWire(w) && Next(w, rx) == Packet(p, rx1) && InRange(w, rx.hdr.value)
    ensures InOrder(w, rx, Outcome([p], rx1, rv))
  {
    DecryptsBody(w, rx, p, rx1);
    assert Flatten([p]) == p;
  }

  lemma InOrderPacket<S(!new)>(w: Wire<S>, rx: Rx<S>, p: seq<octet>, rx1: Rx<S>, o: Outcome<S>)
    requires ValidWire(w) && Next(w, rx) == Packet(p, rx1) && InRange(w, rx.hdr.value)
    requires InOrder(w, rx1, o)
    ensures InOrder(w, rx, Outcome([p] + o.packets, o.rx, o.rv))
  {
    hide Decrypts, Decrypted, BodyLen, InRange;
    DecryptsBody(w, rx, p, rx1);
    DecryptedCons(p, o);
    DecryptsOn(w, rx, BodyLen(w, rx.hdr.value), p, rx1, |rx1.rest| - |o.rx.rest|, o.rx.key, Decrypted(o));
  }

  lemma {:induction false} DecryptsInOrder<S(!new)>(w: Wire<S>, rx: Rx<S>)
    requires ValidWire(w) && Sane(w, rx)
    ensures InOrder(w, rx, Run(w, rx))
    decreases |rx.rest|, if rx.hdr.Some? then 1 else 0
  {
    match Next(w, rx)
    case Wait =>
      assert rx.rest[..0] == [] && rx.rest[0..] == rx.rest;
    case Header(rx1) =>
      DecryptsInOrder(w, rx1);
      var o := Run(w, rx1);
      DecryptsHeader(w, rx, rx1, |rx1.rest| - |o.rx.rest|, o.rx.key, Decrypted(o));
    case Packet(p, rx1) =>
      if w.handle(p) != 0 {
        InOrderLast(w, rx, p, rx1, w.handle(p));
      } else {
        DecryptsInOrder(w, rx1);
        InOrderPacket(w, rx, p, rx1, Run(w, rx1));
      }
  }
}
