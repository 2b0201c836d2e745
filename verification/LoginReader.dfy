/**
 The login server's reader, for the client types whose packets are padded on the wire (PC, GC, EP3
 and BB).  Every call makes one recv for exactly what the packet at hand still needs: the rest of its
 header, or the rest of its body.  A header must declare a header's length at least: of a shorter packet
 it would hold back the delivery to the next event.
 */
module LoginReader {
  import opened Bytes
  import opened PacketStream

  class LoginClient<S(!new)> {
    const w: Wire<S>
    var cipher: S
    var recvbuf: Option<seq<octet>>   // c->recvbuf up to pkt_cur, None when it is not allocated
    var pktSz: nat                    // 0 until the header is decrypted
    ghost var delivered: seq<seq<octet>>

    constructor (w: Wire<S>, key: S)
      requires ValidWire(w) && w.low == w.hs
      ensures Valid() && this.w == w && Rx() == PacketStream.Rx(key, None, []) && delivered == []
    {
      this.w, cipher := w, key;
      recvbuf, pktSz, delivered := None, 0, [];
    }

    ghost predicate Valid()
      reads this
    {
      && ValidWire(w) && w.low == w.hs
      && if recvbuf.None? then pktSz == 0
         else if pktSz == 0 then 0 < |recvbuf.value| < w.hs
         else
           && w.hs <= |recvbuf.value| < pktSz
           && InRange(w, recvbuf.value[..w.hs])
           && pktSz == Rounded(w.hs, w.declared(recvbuf.value[..w.hs]))
    }

    /** The same state as the ideal reader has it. */
    ghost function Rx(): Rx<S>
      requires ValidWire(w) && (pktSz > 0 ==> recvbuf.Some? && |recvbuf.value| >= w.hs)
      reads this
    {
      if recvbuf.None? then PacketStream.Rx(cipher, None, [])
      else if pktSz == 0 then PacketStream.Rx(cipher, None, recvbuf.value)
      else PacketStream.Rx(cipher, Some(recvbuf.value[..w.hs]), recvbuf.value[w.hs..])
    }

    /** How much the next recv asks for. */
    function Want(): (n: int)
      requires Valid()
      reads this
      ensures n > 0
    {
      var have := if recvbuf.Some? then |recvbuf.value| else 0;
      (if pktSz == 0 then w.hs else pktSz) - have
    }

    lemma WaitsForMore()
      requires Valid()
      ensures Settled(w, Rx()) && Run(w, Rx()) == Outcome([], Rx(), 0)
    {
      if pktSz > 0 {
        RoundedFits(w.hs, w.declared(recvbuf.value[..w.hs]));
      }
    }

    /** The packet in the receive buffer is complete. */
    method Process(packet: seq<octet>) returns (rv: int)
      modifies this`recvbuf, this`pktSz, this`delivered
      ensures recvbuf == None && pktSz == 0 && delivered == old(delivered) + [packet] && rv == w.handle(packet)
    {
      delivered := delivered + [packet];
      rv := w.handle(packet);
      recvbuf := None;
      pktSz := 0;
    }

    lemma NothingLeft(k: S)
      requires ValidWire(w)
      ensures Crypt(w, k, []) == (k, [])
      ensures Run(w, PacketStream.Rx(k, None, [])) == Outcome([], PacketStream.Rx(k, None, []), 0)
    {
    }

    /** What the ideal reader makes of a whole header: a packet, if that is all of it. */
    lemma HeaderRuns(key: S, bytes: seq<octet>)
      requires ValidWire(w) && w.low == w.hs && |bytes| == w.hs && Sane(w, PacketStream.Rx(key, None, bytes))
      ensures var (k, h) := w.dec(key, bytes);
        && |h| == w.hs && InRange(w, h)
        && Run(w, PacketStream.Rx(key, None, bytes)) ==
             if w.declared(h) == w.hs then Outcome([h], PacketStream.Rx(k, None, []), w.handle(h))
             else Outcome([], PacketStream.Rx(k, Some(h), []), 0)
    {
      hide Crypt;
      var (k, h) := w.dec(key, bytes);
      assert bytes[..w.hs] == bytes && bytes[w.hs..] == [];
      var rx1 := PacketStream.Rx(k, Some(h), []);
      assert Next(w, PacketStream.Rx(key, None, bytes)) == Header(rx1);
      RoundedFits(w.hs, w.declared(h));
      if w.declared(h) == w.hs {
        NothingLeft(k);
        assert h + [] == h;
        assert Next(w, rx1) == Packet(h, PacketStream.Rx(k, None, []));
      } else {
        assert Next(w, rx1).Wait?;
      }
    }

    /** The header is complete: decrypts it, and processes the packet if that is all of it. */
    method StartPacket(bytes: seq<octet>) returns (rv: int)
      requires ValidWire(w) && w.low == w.hs && |bytes| == w.hs
      requires Sane(w, PacketStream.Rx(cipher, None, bytes))
      modifies this
      ensures var o := Run(w, PacketStream.Rx(old(cipher), None, bytes));
        && rv == o.rv && delivered == old(delivered) + o.packets
        && (rv == 0 ==> Valid() && Rx() == o.rx)
    {
      hide Crypt, Run, Sane;
      HeaderRuns(cipher, bytes);
      var (k, h) := w.dec(cipher, bytes);
      cipher := k;
      var declared := w.declared(h);
      var sz := if Whole(w.hs, declared) then declared
                else declared - (if w.hs == 4 then declared % 4 else declared % 8) + w.hs;
      RoundedFits(w.hs, declared);
      if declared == w.hs {
        rv := Process(h);
      } else {
        recvbuf, pktSz := Some(h), sz;
        assert h[..w.hs] == h && h[w.hs..] == [];
        rv := 0;
      }
    }

    /** The body is complete. */
    method FinishPacket(bytes: seq<octet>) returns (rv: int)
      requires Valid() && pktSz > 0 && |bytes| == pktSz && bytes[..w.hs] == recvbuf.value[..w.hs]
      modifies this
      ensures var o := Run(w, PacketStream.Rx(old(cipher), Some(bytes[..w.hs]), bytes[w.hs..]));
        && rv == o.rv && delivered == old(delivered) + o.packets
        && (rv == 0 ==> Valid() && Rx() == o.rx)
    {
      var h, body := bytes[..w.hs], bytes[w.hs..];
      ghost var rx := PacketStream.Rx(cipher, Some(h), body);
      assert body[..|body|] == body && body[|body|..] == [];
      var (k, plain) := Crypt(w, cipher, body);
      cipher := k;
      assert Next(w, rx) == Packet(h + plain, PacketStream.Rx(k, None, []));
      NothingLeft(k);
      rv := Process(h + plain);
    }

    /** One call with what its recv returned. */
    method ReadFromClient(data: seq<octet>) returns (rv: int)
      requires Valid() && |data| <= Want() && Sane(w, More(Rx(), data))
      modifies this
      ensures data == [] ==> rv == -1 && unchanged(this)
      ensures data != [] ==>
        var o := Run(w, old(More(Rx(), data)));
        && rv == o.rv && delivered == old(delivered) + o.packets
        && (rv == 0 ==> Valid() && Rx() == o.rx)
    {
      if |data| == 0 {
        return -1;
      }
      var bytes := (if recvbuf.Some? then recvbuf.value else []) + data;
      if |data| < Want() {
        ghost var rx := More(Rx(), data);
        recvbuf := Some(bytes);
        rv := 0;
        assert pktSz > 0 ==> bytes[..w.hs] == old(recvbuf).value[..w.hs];
        assert Rx() == rx;
        WaitsForMore();
      } else if pktSz == 0 {
        rv := StartPacket(bytes);
      } else {
        assert bytes[..w.hs] == recvbuf.value[..w.hs];
        assert bytes[w.hs..] == recvbuf.value[w.hs..] + data;
        rv := FinishPacket(bytes);
      }
    }
  }
}
