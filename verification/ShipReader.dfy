/**
 The ship server's reader: every call takes one piece from the socket and delivers all the packets
 that are complete.  Between calls it keeps the unused bytes, still encrypted, and, once a header has
 been decrypted, a decrypted copy of that header.
 */
module ShipReader {
  import opened Bytes
  import opened PacketStream

  class ShipClient<S(!new)> {
    const w: Wire<S>
    var ckey: S
    var hdrRead: bool           // CLIENT_FLAG_HDR_READ
    var pkt: seq<octet>         // the decrypted header
    var recvbuf: seq<octet>     // what the last read left over
    ghost var delivered: seq<seq<octet>>

    constructor (w: Wire<S>, key: S)
      requires ValidWire(w)
      ensures Valid() && this.w == w && Rx() == PacketStream.Rx(key, None, []) && delivered == []
    {
      this.w, ckey := w, key;
      hdrRead, pkt, recvbuf, delivered := false, [], [], [];
    }

    /** A header has been decrypted exactly when at least a header is left over. */
    ghost predicate Valid()
      reads this
    {
      && ValidWire(w)
      && (hdrRead <==> |recvbuf| >= w.hs)
      && Settled(w, Rx())
    }

    ghost function Rx(): Rx<S>
      reads this
    {
      if hdrRead && |recvbuf| >= w.hs then PacketStream.Rx(ckey, Some(pkt), recvbuf[w.hs..])
      else PacketStream.Rx(ckey, None, recvbuf)
    }

    /** The room in the receive buffer; it never runs out. */
    function Capacity(): (n: int)
      requires Valid()
      reads this
      ensures n > w.hs
    {
      if hdrRead then RoundedFits(w.hs, w.declared(pkt)); 0x10000 - |recvbuf| else 0x10000 - |recvbuf|
    }

    /** What the packet loop has in front of it: the state, and the bytes `front` of the receive
        buffer that it has not passed. */
    ghost function Loop(front: seq<octet>): Rx<S>
      reads this
    {
      if hdrRead && |front| >= w.hs then PacketStream.Rx(ckey, Some(pkt), front[w.hs..])
      else PacketStream.Rx(ckey, None, front)
    }

    /** Decrypts the header in front into `pkt`; the buffer keeps it encrypted. */
    method ReadHeader(front: seq<octet>)
      requires ValidWire(w) && w.hs <= |front| && !hdrRead
      modifies this`ckey, this`hdrRead, this`pkt
      ensures hdrRead && Next(w, old(Loop(front))) == Header(Loop(front))
    {
      var (k, h) := w.dec(ckey, front[..w.hs]);
      ckey, pkt := k, h;
      hdrRead := true;
    }

    /** Decrypts the body of the complete packet in front, puts the header before it and hands the
        packet on. */
    method Deliver(front: seq<octet>, pktSz: nat) returns (rv: int, ghost p: seq<octet>)
      requires ValidWire(w) && hdrRead && InRange(w, pkt) && pktSz == Rounded(w.hs, w.declared(pkt)) <= |front|
      modifies this`ckey, this`hdrRead, this`delivered
      ensures !hdrRead && Next(w, old(Loop(front))) == Packet(p, Loop(front[pktSz..]))
      ensures delivered == old(delivered) + [p] && rv == w.handle(p)
    {
      RoundedFits(w.hs, w.declared(pkt));
      assert front[w.hs..][..pktSz - w.hs] == front[w.hs..pktSz];
      assert front[w.hs..][pktSz - w.hs..] == front[pktSz..];
      var (k, body) := Crypt(w, ckey, front[w.hs..pktSz]);
      var packet := pkt + body;
      ckey := k;
      delivered := delivered + [packet];
      p := packet;
      rv := w.handle(packet);
      hdrRead := false;
    }

    /** `o` is what remains to come of the outcome `all`, after the packets `done`. */
    ghost predicate Remains(o: Outcome<S>, done: seq<seq<octet>>, all: Outcome<S>) {
      done + o.packets == all.packets && o.rx == all.rx && o.rv == all.rv
    }

    lemma RemainsStep(rx: Rx<S>, p: seq<octet>, rx1: Rx<S>, done: seq<seq<octet>>, all: Outcome<S>)
      requires ValidWire(w) && Next(w, rx) == Packet(p, rx1) && Sane(w, rx) && Remains(Run(w, rx), done, all)
      ensures if w.handle(p) == 0 then Sane(w, rx1) && Remains(Run(w, rx1), done + [p], all)
              else done + [p] == all.packets && w.handle(p) == all.rv
    {
      if w.handle(p) == 0 {
        assert (done + [p]) + Run(w, rx1).packets == done + ([p] + Run(w, rx1).packets);
      }
    }

    lemma RemainsHeader(rx: Rx<S>, rx1: Rx<S>)
      requires ValidWire(w) && Next(w, rx) == Header(rx1) && Sane(w, rx)
      ensures Sane(w, rx1) && Run(w, rx1) == Run(w, rx) && InRange(w, rx1.hdr.value)
    {
    }

    lemma RemainsNothing(rx: Rx<S>, done: seq<seq<octet>>, all: Outcome<S>)
      requires ValidWire(w) && Next(w, rx).Wait? && Remains(Run(w, rx), done, all)
      ensures done == all.packets && rx == all.rx && all.rv == 0
    {
      assert done + [] == done;
    }

    /** The packets `done` are delivered, and what is in front gives the rest of `all`. */
    ghost predicate OnTrack(front: seq<octet>, rv: int, done: seq<seq<octet>>, all: Outcome<S>)
      requires ValidWire(w)
      reads this
    {
      if rv == 0 then Sane(w, Loop(front)) && Remains(Run(w, Loop(front)), done, all)
      else done == all.packets && rv == all.rv
    }

    /** One round of the packet loop: delivers the packet in front, or finds that it is not complete. */
    method Round(front: seq<octet>, ghost done: seq<seq<octet>>, ghost all: Outcome<S>)
      returns (rv: int, size: nat, ghost more: seq<seq<octet>>)
      requires ValidWire(w) && |front| >= w.hs && OnTrack(front, 0, done, all)
      modifies this`ckey, this`hdrRead, this`pkt, this`delivered
      ensures size <= |front| && delivered == old(delivered) + more
      ensures if size == 0
              then rv == 0 && hdrRead && more == [] && done == all.packets && Loop(front) == all.rx && all.rv == 0
              else !hdrRead && OnTrack(front[size..], rv, done + more, all)
    {
      if !hdrRead {
        ghost var rx0 := Loop(front);
        ReadHeader(front);
        RemainsHeader(rx0, Loop(front));
      }
      assert Loop(front) == PacketStream.Rx(ckey, Some(pkt), front[w.hs..]) && InRange(w, pkt);
      var pktSz := Rounded(w.hs, w.declared(pkt));
      RoundedFits(w.hs, w.declared(pkt));
      if |front| >= pktSz {
        ghost var rx, p := Loop(front), [];
        rv, p := Deliver(front, pktSz);
        RemainsStep(rx, p, Loop(front[pktSz..]), done, all);
        size, more := pktSz, [p];
      } else {
        RemainsNothing(Loop(front), done, all);
        rv, size, more := 0, 0, [];
      }
    }

    /** The packet loop, which turns the buffer into the outcome `all`; `front` is what it leaves. */
    method Packets(buf: seq<octet>, ghost all: Outcome<S>) returns (rv: int, front: seq<octet>)
      requires ValidWire(w) && (hdrRead ==> |buf| >= w.hs) && OnTrack(buf, 0, [], all)
      modifies this`ckey, this`hdrRead, this`pkt, this`delivered
      ensures rv == all.rv && delivered == old(delivered) + all.packets
      ensures rv == 0 ==> Loop(front) == all.rx && (hdrRead <==> |front| >= w.hs)
    {
      hide Run, Sane, InRange;
      ghost var done := [];
      front, rv := buf, 0;
      while |front| >= w.hs && rv == 0
        invariant (hdrRead ==> |front| >= w.hs) && delivered == old(delivered) + done
        invariant OnTrack(front, rv, done, all)
      {
        var size;
        ghost var more;
        rv, size, more := Round(front, done, all);
        if size == 0 {
          return;
        }
        front := front[size..];
        done := done + more;
      }
      if rv == 0 {
        RemainsNothing(Loop(front), done, all);
      }
    }

    /** Takes what one recv returned and delivers every packet that is complete. */
    method ProcessPkt(data: seq<octet>) returns (rv: int)
      requires Valid() && |data| <= Capacity() && Sane(w, More(Rx(), data))
      modifies this
      ensures data == [] ==> rv == -1 && unchanged(this)
      ensures data != [] ==>
        var o := Run(w, old(More(Rx(), data)));
        && rv == o.rv && delivered == old(delivered) + o.packets
        && (rv == 0 ==> Valid() && Rx() == o.rx)
    {
      if |data| == 0 {
        return -1;
      }
      var buf := recvbuf + data;
      assert hdrRead ==> buf[w.hs..] == recvbuf[w.hs..] + data;
      RunSettles(w, Loop(buf));
      ghost var all := Run(w, Loop(buf));
      assert [] + all.packets == all.packets;
      var front;
      rv, front := Packets(buf, all);
      recvbuf := if rv == 0 then front else [];
    }
  }
}
