/**
 * The network interface of `src/network_interface.cc`: it turns IPv4 datagrams into
 * Ethernet frames, resolving next-hop IP addresses to Ethernet addresses with ARP
 * (RFC 826). It keeps a cache of learned bindings with a time to live, the ARP requests
 * still pending with their own time to live, the datagrams waiting for a resolution,
 * and a FIFO queue of frames to transmit.
 */
module NetworkInterfaces {
  import opened Common

  /** A 48-bit Ethernet address. */
  type EthernetAddress = a: seq<Byte> | |a| == 6 witness [0, 0, 0, 0, 0, 0]

  const ETHERNET_BROADCAST: EthernetAddress := [0xff, 0xff, 0xff, 0xff, 0xff, 0xff]
  /** A value-initialised address: the unknown target of an ARP request. */
  const ETHERNET_ZERO: EthernetAddress := [0, 0, 0, 0, 0, 0]

  /** `EthernetHeader::TYPE_IPv4` and `TYPE_ARP`. */
  const TYPE_IPV4: u16 := 0x0800
  const TYPE_ARP: u16 := 0x0806

  /** `ARPMessage::OPCODE_REQUEST` and `OPCODE_REPLY`. */
  const OPCODE_REQUEST: u16 := 1
  const OPCODE_REPLY: u16 := 2

  datatype EthernetHeader = EthernetHeader(dst: EthernetAddress, src: EthernetAddress, etherType: u16)

  datatype EthernetFrame = EthernetFrame(header: EthernetHeader, payload: seq<Byte>)

  datatype ARPMessage = ARPMessage(opcode: u16, senderEthernet: EthernetAddress, senderIp: u32,
                                   targetEthernet: EthernetAddress, targetIp: u32)

  /** An IPv4 datagram, kept as its bytes: the interface never looks inside one. */
  datatype InternetDatagram = InternetDatagram(bytes: seq<Byte>)

  /** `arp_t`: a learned binding and the milliseconds it has left. */
  datatype ArpEntry = ArpEntry(eth: EthernetAddress, ttl: nat)

  /** A datagram waiting for its next hop (an IPv4 address) to be resolved. */
  type Waiting = (u32, InternetDatagram)

  /**
   * The state the interface changes: `arp_table_`, `arp_requests_lifetime_`,
   * `arp_datagrams_waiting_list_` and `outbound_frames_`.
   */
  datatype Interface = Interface(arpTable: map<u32, ArpEntry>, requests: map<u32, nat>,
                                 waiting: seq<Waiting>, outbound: seq<EthernetFrame>)

  /**
   * A datagram waits only for a next hop that is not in the cache and that has an ARP
   * request pending.
   */
  ghost predicate Consistent(s: Interface)
  {
    forall i | 0 <= i < |s.waiting| :: s.waiting[i].0 !in s.arpTable && s.waiting[i].0 in s.requests
  }

  // ---------------------------------------------------------------- lines 130-138

  /** Lines 130-138 on the cache: entries that run out are evicted, the rest age by `ms`. */
  function Aged(table: map<u32, ArpEntry>, ms: nat): (r: map<u32, ArpEntry>)
    ensures forall ip :: ip in r <==> ip in table && table[ip].ttl > ms
    ensures forall ip | ip in r :: r[ip].eth == table[ip].eth && r[ip].ttl + ms == table[ip].ttl
  {
    map ip | ip in table && table[ip].ttl > ms :: table[ip].(ttl := table[ip].ttl - ms)
  }

  /** Aging by `a` and then by `b` is aging by `a + b`: an entry lives its whole TTL. */
  lemma AgedTwice(table: map<u32, ArpEntry>, a: nat, b: nat)
    ensures Aged(Aged(table, a), b) == Aged(table, a + b)
  {
    var l, r := Aged(Aged(table, a), b), Aged(table, a + b);
    assert l.Keys == r.Keys;
    forall ip | ip in l ensures l[ip] == r[ip] {
      assert l[ip].ttl == r[ip].ttl;
    }
  }

  // ---------------------------------------------------------------- lines 141-163

  /**
   * Lines 141-163 on the pending requests: a request that runs out is sent again and
   * waits the full request TTL once more; the rest age by `ms`. None is removed.
   */
  function Renewed(requests: map<u32, nat>, ms: nat, requestTtl: nat): (r: map<u32, nat>)
    ensures r.Keys == requests.Keys
    ensures forall ip | ip in r :: r[ip] == if requests[ip] <= ms then requestTtl else requests[ip] - ms
  {
    map ip | ip in requests :: if requests[ip] <= ms then requestTtl else requests[ip] - ms
  }

  /** With a positive request TTL, every pending request has time left after a tick. */
  lemma RenewedPositive(requests: map<u32, nat>, ms: nat, requestTtl: nat)
    requires requestTtl > 0
    ensures forall ip | ip in Renewed(requests, ms, requestTtl) :: Renewed(requests, ms, requestTtl)[ip] > 0
  {
  }

  /** A tick keeps the consistency of the waiting list. */
  lemma TickKeepsConsistent(s: Interface, ms: nat, requestTtl: nat, frames: seq<EthernetFrame>)
    requires Consistent(s)
    ensures Consistent(Interface(Aged(s.arpTable, ms), Renewed(s.requests, ms, requestTtl), s.waiting, s.outbound + frames))
  {
  }

  /** The distinct elements of `order` are exactly the members of `ips`. */
  ghost predicate Enumerates(order: seq<u32>, ips: set<u32>)
  {
    && (forall i, j | 0 <= i < j < |order| :: order[i] != order[j])
    && (forall ip :: ip in order <==> ip in ips)
  }

  // ---------------------------------------------------------------- the interface

  class NetworkInterface {
    /** `ethernet_address_` and the numeric `ip_address_`. */
    const ethernetAddress: EthernetAddress
    const ipAddress: u32
    /** `ARP_DEFAULT_TTL` and `ARP_REQUEST_DEFAULT_TTL`, in milliseconds. */
    const arpTtl: nat
    const requestTtl: nat
    /** The wire formats: `serialize` and `parse` of datagrams and ARP messages. */
    const serializeDatagram: InternetDatagram -> seq<Byte>
    const parseDatagram: seq<Byte> -> Option<InternetDatagram>
    const serializeArp: ARPMessage -> seq<Byte>
    const parseArp: seq<Byte> -> Option<ARPMessage>

    var arpTable: map<u32, ArpEntry>
    var requests: map<u32, nat>
    var waiting: seq<Waiting>
    var outbound: seq<EthernetFrame>

    function State(): Interface
      reads this
    {
      Interface(arpTable, requests, waiting, outbound)
    }

    /** Lines 10-15, without the debug output. */
    constructor (ethernetAddress: EthernetAddress, ipAddress: u32, arpTtl: nat, requestTtl: nat,
                 serializeDatagram: InternetDatagram -> seq<Byte>, parseDatagram: seq<Byte> -> Option<InternetDatagram>,
                 serializeArp: ARPMessage -> seq<Byte>, parseArp: seq<Byte> -> Option<ARPMessage>)
      ensures this.ethernetAddress == ethernetAddress && this.ipAddress == ipAddress
      ensures this.arpTtl == arpTtl && this.requestTtl == requestTtl
      ensures this.serializeDatagram == serializeDatagram && this.parseDatagram == parseDatagram
      ensures this.serializeArp == serializeArp && this.parseArp == parseArp
      ensures State() == Interface(map[], map[], [], []) && Consistent(State())
    {
      this.ethernetAddress, this.ipAddress, this.arpTtl, this.requestTtl := ethernetAddress, ipAddress, arpTtl, requestTtl;
      this.serializeDatagram, this.parseDatagram := serializeDatagram, parseDatagram;
      this.serializeArp, this.parseArp := serializeArp, parseArp;
      arpTable, requests, waiting, outbound := map[], map[], [], [];
    }

    // -------------------------------------------------------------- the frames it builds

    /** Lines 27-31: a datagram for the Ethernet address `dst`. */
    function DatagramFrame(dst: EthernetAddress, dgram: InternetDatagram): EthernetFrame
    {
      EthernetFrame(EthernetHeader(dst, ethernetAddress, TYPE_IPV4), serializeDatagram(dgram))
    }

    /** Lines 36-47 and 144-155: a broadcast request for the Ethernet address of `target`. */
    function RequestFrame(target: u32): EthernetFrame
    {
      var msg := ARPMessage(OPCODE_REQUEST, ethernetAddress, ipAddress, ETHERNET_ZERO, target);
      EthernetFrame(EthernetHeader(ETHERNET_BROADCAST, ethernetAddress, TYPE_ARP), serializeArp(msg))
    }

    /** Lines 87-98: the reply to `req`, from us to its sender. */
    function ReplyFrame(req: ARPMessage): EthernetFrame
    {
      var msg := ARPMessage(OPCODE_REPLY, ethernetAddress, ipAddress, req.senderEthernet, req.senderIp);
      EthernetFrame(EthernetHeader(req.senderEthernet, ethernetAddress, TYPE_ARP), serializeArp(msg))
    }

    function RequestFrames(order: seq<u32>): (r: seq<EthernetFrame>)
      ensures |r| == |order| && forall i | 0 <= i < |order| :: r[i] == RequestFrame(order[i])
    {
      seq(|order|, i requires 0 <= i < |order| => RequestFrame(order[i]))
    }

    // ---------------------------------------------------------------- lines 110-118

    /**
     * The flush of lines 110-118 over the waiting list `w` once `hop` resolves to `dst`:
     * the datagrams for `hop` become IPv4 frames in list order, the others stay waiting in
     * their order.
     */
    function Flush(w: seq<Waiting>, hop: u32, dst: EthernetAddress): (r: (seq<Waiting>, seq<EthernetFrame>))
      ensures |r.0| + |r.1| == |w|
      ensures forall i | 0 <= i < |r.0| :: r.0[i].0 != hop && r.0[i] in w
      decreases |w|
    {
      if w == [] then ([], [])
      else
        var last := w[|w| - 1];
        var r := Flush(w[..|w| - 1], hop, dst);
        if last.0 == hop then (r.0, r.1 + [DatagramFrame(dst, last.1)]) else (r.0 + [last], r.1)
    }

    /** Datagrams for another hop pass through the flush untouched. */
    lemma FlushNoMatch(w: seq<Waiting>, hop: u32, dst: EthernetAddress)
      requires forall i | 0 <= i < |w| :: w[i].0 != hop
      ensures Flush(w, hop, dst) == (w, [])
      decreases |w|
    {
      if w != [] {
        FlushNoMatch(w[..|w| - 1], hop, dst);
        assert w[..|w| - 1] + [w[|w| - 1]] == w;
      }
    }

    /** A list of datagrams all for `hop` becomes their frames, in order. */
    lemma {:induction false} FlushAllMatch(w: seq<Waiting>, hop: u32, dst: EthernetAddress)
      requires forall i | 0 <= i < |w| :: w[i].0 == hop
      ensures Flush(w, hop, dst).0 == []
      ensures var f := Flush(w, hop, dst).1; |f| == |w| && forall i | 0 <= i < |w| :: f[i] == DatagramFrame(dst, w[i].1)
      decreases |w|
    {
      if w != [] {
        var w' := w[..|w| - 1];
        FlushAllMatch(w', hop, dst);
        var f, f' := Flush(w, hop, dst).1, Flush(w', hop, dst).1;
        assert f == f' + [DatagramFrame(dst, w[|w| - 1].1)];
        forall i | 0 <= i < |w| ensures f[i] == DatagramFrame(dst, w[i].1) {
          if i < |w'| {
            assert f[i] == f'[i] && w[i] == w'[i];
          }
        }
      }
    }

    /** The flush of `a + b` is the flush of `a` followed by the flush of `b`. */
    lemma {:induction false} FlushAppend(a: seq<Waiting>, b: seq<Waiting>, hop: u32, dst: EthernetAddress)
      ensures var l, r := Flush(a, hop, dst), Flush(b, hop, dst);
        Flush(a + b, hop, dst) == (l.0 + r.0, l.1 + r.1)
      decreases |b|
    {
      if b == [] {
        var l := Flush(a, hop, dst);
        assert a + b == a && l.0 + [] == l.0 && l.1 + [] == l.1;
      } else {
        var b', last := b[..|b| - 1], b[|b| - 1];
        assert (a + b)[..|a + b| - 1] == a + b' && (a + b)[|a + b| - 1] == last;
        FlushAppend(a, b', hop, dst);
        var l, r' := Flush(a, hop, dst), Flush(b', hop, dst);
        if last.0 == hop {
          assert l.1 + r'.1 + [DatagramFrame(dst, last.1)] == l.1 + (r'.1 + [DatagramFrame(dst, last.1)]);
        } else {
          assert l.0 + r'.0 + [last] == l.0 + (r'.0 + [last]);
        }
      }
    }

    /** The flush of one more waiting datagram. */
    lemma FlushStep(w: seq<Waiting>, j: nat, hop: u32, dst: EthernetAddress)
      requires j < |w|
      ensures var l, r := Flush(w[..j], hop, dst), Flush(w[..j + 1], hop, dst);
        r == if w[j].0 == hop then (l.0, l.1 + [DatagramFrame(dst, w[j].1)]) else (l.0 + [w[j]], l.1)
    {
      assert w[..j + 1][..j] == w[..j];
    }

    // -------------------------------------------------------------- send_datagram, on values

    /**
     * `send_datagram` (lines 23-56): a cached next hop gets the datagram at once, as one
     * IPv4 frame; otherwise the datagram waits, and a broadcast request goes out unless
     * one is already pending for that hop.
     */
    function Send(s: Interface, dgram: InternetDatagram, hop: u32): (r: Interface)
      ensures r.arpTable == s.arpTable
      ensures hop in s.arpTable ==>
                && r.outbound == s.outbound + [DatagramFrame(s.arpTable[hop].eth, dgram)]
                && r.requests == s.requests && r.waiting == s.waiting
      ensures hop !in s.arpTable ==>
                && r.waiting == s.waiting + [(hop, dgram)]
                && r.outbound == s.outbound + (if hop in s.requests then [] else [RequestFrame(hop)])
                && r.requests == if hop in s.requests then s.requests else s.requests[hop := requestTtl]
    {
      if hop in s.arpTable then
        s.(outbound := s.outbound + [DatagramFrame(s.arpTable[hop].eth, dgram)])
      else
        var pending := hop in s.requests;
        var outbound := if pending then s.outbound else s.outbound + [RequestFrame(hop)];
        var requests := if pending then s.requests else s.requests[hop := requestTtl];
        Interface(s.arpTable, requests, s.waiting + [(hop, dgram)], outbound)
    }

    /** Sending keeps the waiting list consistent. */
    lemma SendKeepsConsistent(s: Interface, dgram: InternetDatagram, hop: u32)
      requires Consistent(s)
      ensures Consistent(Send(s, dgram, hop))
    {
      var r := Send(s, dgram, hop);
      forall i | 0 <= i < |r.waiting| ensures r.waiting[i].0 !in r.arpTable && r.waiting[i].0 in r.requests {
        if i < |s.waiting| {
          assert r.waiting[i] == s.waiting[i];
        }
      }
    }

    /**
     * Two datagrams for the same unresolved hop: both wait, in order, and only the first
     * send broadcasts a request.
     */
    lemma SendTwiceRequestsOnce(s: Interface, d1: InternetDatagram, d2: InternetDatagram, hop: u32)
      requires hop !in s.arpTable
      ensures var r := Send(Send(s, d1, hop), d2, hop);
        && r.waiting == s.waiting + [(hop, d1), (hop, d2)]
        && r.outbound == Send(s, d1, hop).outbound
        && |r.outbound| <= |s.outbound| + 1
        && hop in r.requests
    {
    }

    // -------------------------------------------------------------- recv_frame, on values

    /** Lines 84-85: an ARP request for our IP address. */
    predicate IsRequestForUs(msg: ARPMessage)
    {
      msg.opcode == OPCODE_REQUEST && msg.targetIp == ipAddress
    }

    /** Lines 102-103: an ARP reply to our Ethernet address. */
    predicate IsReplyForUs(msg: ARPMessage)
    {
      msg.opcode == OPCODE_REPLY && msg.targetEthernet == ethernetAddress
    }

    /**
     * Lines 84-120 on a parsed ARP message: answer a request for us; on a request for us
     * or a reply to us, learn the sender's binding unless one is cached (`emplace`),
     * deliver the datagrams waiting for the sender and drop its pending request.
     */
    function Learn(s: Interface, msg: ARPMessage): (r: Interface)
      ensures IsRequestForUs(msg) ==> |r.outbound| > |s.outbound| && r.outbound[|s.outbound|] == ReplyFrame(msg)
      ensures !IsRequestForUs(msg) && !IsReplyForUs(msg) ==> r == s
      ensures IsRequestForUs(msg) || IsReplyForUs(msg) ==>
                && msg.senderIp in r.arpTable && msg.senderIp !in r.requests
                && (msg.senderIp in s.arpTable ==> r.arpTable == s.arpTable)
                && (msg.senderIp !in s.arpTable ==>
                      r.arpTable == s.arpTable[msg.senderIp := ArpEntry(msg.senderEthernet, arpTtl)])
                && r.requests == s.requests - {msg.senderIp}
                && (forall i | 0 <= i < |r.waiting| :: r.waiting[i].0 != msg.senderIp)
    {
      var outbound := if IsRequestForUs(msg) then s.outbound + [ReplyFrame(msg)] else s.outbound;
      if IsRequestForUs(msg) || IsReplyForUs(msg) then
        var ip := msg.senderIp;
        var table := if ip in s.arpTable then s.arpTable else s.arpTable[ip := ArpEntry(msg.senderEthernet, arpTtl)];
        var flushed := Flush(s.waiting, ip, table[ip].eth);
        Interface(table, s.requests - {ip}, flushed.0, outbound + flushed.1)
      else
        s.(outbound := outbound)
    }

    /**
     * `recv_frame` (lines 59-123): drop a frame that is neither for us nor broadcast;
     * hand back the parsed datagram of an IPv4 frame; act on a parsed ARP message. Only
     * an IPv4 frame yields a datagram.
     */
    function Receive(s: Interface, frame: EthernetFrame): (r: (Interface, Option<InternetDatagram>))
      ensures frame.header.dst != ethernetAddress && frame.header.dst != ETHERNET_BROADCAST ==> r == (s, None)
      ensures r.1.Some? ==> frame.header.etherType == TYPE_IPV4 && r.0 == s
      ensures (frame.header.etherType == TYPE_IPV4 && (frame.header.dst == ethernetAddress || frame.header.dst == ETHERNET_BROADCAST))
                ==> r == (s, parseDatagram(frame.payload))
      ensures frame.header.etherType != TYPE_ARP ==> r.0 == s
    {
      if frame.header.dst != ethernetAddress && frame.header.dst != ETHERNET_BROADCAST then (s, None)
      else if frame.header.etherType == TYPE_IPV4 then (s, parseDatagram(frame.payload))
      else if frame.header.etherType == TYPE_ARP then
        match parseArp(frame.payload)
        case None => (s, None)
        case Some(msg) => (Learn(s, msg), None)
      else (s, None)
    }

    /** Learning from an ARP message keeps the waiting list consistent. */
    lemma LearnKeepsConsistent(s: Interface, msg: ARPMessage)
      requires Consistent(s)
      ensures Consistent(Learn(s, msg))
    {
      var r := Learn(s, msg);
      if IsRequestForUs(msg) || IsReplyForUs(msg) {
        var ip := msg.senderIp;
        forall i | 0 <= i < |r.waiting| ensures r.waiting[i].0 !in r.arpTable && r.waiting[i].0 in r.requests {
          var j :| 0 <= j < |s.waiting| && s.waiting[j] == r.waiting[i];
          assert s.waiting[j].0 != ip;
        }
      }
    }

    /** Receiving a frame keeps the waiting list consistent. */
    lemma ReceiveKeepsConsistent(s: Interface, frame: EthernetFrame)
      requires Consistent(s)
      ensures Consistent(Receive(s, frame).0)
    {
      if frame.header.etherType == TYPE_ARP && parseArp(frame.payload).Some? {
        LearnKeepsConsistent(s, parseArp(frame.payload).value);
      }
    }

    /**
     * Address resolution end to end: a datagram for an unresolved hop that nothing else
     * waits for is sent, in an IPv4 frame to the advertised address, once that hop replies;
     * the waiting list is then as before and the hop is cached with no request pending.
     */
    lemma ReplyDeliversWaiting(s: Interface, dgram: InternetDatagram, hop: u32, frame: EthernetFrame, msg: ARPMessage)
      requires hop !in s.arpTable && forall i | 0 <= i < |s.waiting| :: s.waiting[i].0 != hop
      requires frame.header.dst == ethernetAddress && frame.header.etherType == TYPE_ARP
      requires parseArp(frame.payload) == Some(msg) && IsReplyForUs(msg) && msg.senderIp == hop
      ensures var s1 := Send(s, dgram, hop); var r := Receive(s1, frame);
        && r.1 == None
        && r.0.waiting == s.waiting
        && r.0.outbound == s1.outbound + [DatagramFrame(msg.senderEthernet, dgram)]
        && r.0.arpTable == s.arpTable[hop := ArpEntry(msg.senderEthernet, arpTtl)]
        && hop !in r.0.requests
    {
      var s1 := Send(s, dgram, hop);
      var e := msg.senderEthernet;
      assert s1.waiting == s.waiting + [(hop, dgram)] && s1.arpTable == s.arpTable;
      FlushNoMatch(s.waiting, hop, e);
      FlushAllMatch([(hop, dgram)], hop, e);
      FlushAppend(s.waiting, [(hop, dgram)], hop, e);
      var one := Flush([(hop, dgram)], hop, e);
      assert [(hop, dgram)][0].1 == dgram;
      assert |one.1| == 1 && one.1[0] == DatagramFrame(e, dgram);
      assert one.1 == [DatagramFrame(e, dgram)];
      assert s.waiting + one.0 == s.waiting && [] + one.1 == one.1;
      assert Receive(s1, frame) == (Learn(s1, msg), None);
    }

    // -------------------------------------------------------------- the operations

    /** `send_datagram` (lines 23-56) on the interface. */
    method SendDatagram(dgram: InternetDatagram, hop: u32)
      modifies this`requests, this`waiting, this`outbound
      ensures State() == Send(old(State()), dgram, hop)
    {
      if hop in arpTable {
        var frame := DatagramFrame(arpTable[hop].eth, dgram);
        outbound := outbound + [frame];
      } else {
        if hop !in requests {
          outbound := outbound + [RequestFrame(hop)];
          requests := requests[hop := requestTtl];
        }
        waiting := waiting + [(hop, dgram)];
      }
    }

    /**
     * Lines 110-118: walk the waiting list, sending and erasing in place every datagram
     * for `hop`, which the cache resolves.
     */
    method FlushWaiting(hop: u32)
      requires hop in arpTable
      modifies this`requests, this`waiting, this`outbound
      ensures var f := Flush(old(waiting), hop, arpTable[hop].eth);
        waiting == f.0 && outbound == old(outbound) + f.1 && requests == old(requests)
    {
      ghost var w0, o0, dst := waiting, outbound, arpTable[hop].eth;
      var i := 0;
      ghost var j := 0;
      while i < |waiting|
        invariant 0 <= i <= |waiting| && 0 <= j <= |w0|
        invariant waiting[..i] == Flush(w0[..j], hop, dst).0 && waiting[i..] == w0[j..]
        invariant outbound == o0 + Flush(w0[..j], hop, dst).1 && requests == old(requests)
        decreases |waiting| - i
      {
        FlushStep(w0, j, hop, dst);
        ghost var pre := waiting;
        var entry := waiting[i];
        if entry.0 == hop {
          SendDatagram(entry.1, entry.0);
          assert waiting == pre;
          waiting := waiting[..i] + waiting[i + 1..];
          assert waiting[..i] == pre[..i] && waiting[i..] == pre[i + 1..];
        } else {
          i := i + 1;
        }
        j := j + 1;
      }
      assert w0[..j] == w0;
      assert waiting == waiting[..i];
    }

    /** `recv_frame` (lines 59-123) on the interface. */
    method RecvFrame(frame: EthernetFrame) returns (r: Option<InternetDatagram>)
      modifies this`arpTable, this`requests, this`waiting, this`outbound
      ensures (State(), r) == Receive(old(State()), frame)
    {
      if frame.header.dst != ethernetAddress && frame.header.dst != ETHERNET_BROADCAST {
        return None;
      }
      if frame.header.etherType == TYPE_IPV4 {
        return parseDatagram(frame.payload);
      }
      if frame.header.etherType == TYPE_ARP {
        var parsed := parseArp(frame.payload);
        if parsed.None? {
          return None;
        }
        var msg := parsed.value;
        LearnFrom(msg);
      }
      return None;
    }

    /** Lines 84-120 on the interface; see `Learn`. */
    method LearnFrom(msg: ARPMessage)
      modifies this`arpTable, this`requests, this`waiting, this`outbound
      ensures State() == Learn(old(State()), msg)
    {
      var isRequest := msg.opcode == OPCODE_REQUEST && msg.targetIp == ipAddress;
      if isRequest {
        outbound := outbound + [ReplyFrame(msg)];
      }
      var isReply := msg.opcode == OPCODE_REPLY && msg.targetEthernet == ethernetAddress;
      if isRequest || isReply {
        if msg.senderIp !in arpTable {
          arpTable := arpTable[msg.senderIp := ArpEntry(msg.senderEthernet, arpTtl)];
        }
        FlushWaiting(msg.senderIp);
        requests := requests - {msg.senderIp};
      }
    }

    /**
     * `tick` (lines 126-164): age the cache, and re-broadcast every pending request that
     * ran out. The pending requests are visited in an order the model leaves open;
     * `order` is that order.
     */
    method Tick(ms: nat) returns (ghost order: seq<u32>)
      modifies this`arpTable, this`requests, this`outbound
      ensures arpTable == Aged(old(arpTable), ms)
      ensures requests == Renewed(old(requests), ms, requestTtl)
      ensures Enumerates(order, set ip | ip in old(requests) && old(requests)[ip] <= ms)
      ensures outbound == old(outbound) + RequestFrames(order)
    {
      AgeTable(ms);
      order := RenewRequests(ms);
    }

    /** Lines 130-138: evict the cache entries that ran out, age the others. */
    method AgeTable(ms: nat)
      modifies this`arpTable
      ensures arpTable == Aged(old(arpTable), ms)
    {
      ghost var t0 := arpTable;
      var keys := arpTable.Keys;
      while keys != {}
        invariant keys <= t0.Keys
        invariant forall ip :: ip in arpTable <==> ip in t0 && (ip in keys || t0[ip].ttl > ms)
        invariant forall ip | ip in arpTable :: arpTable[ip] == if ip in keys then t0[ip] else t0[ip].(ttl := t0[ip].ttl - ms)
        decreases keys
      {
        var ip :| ip in keys;
        var entry := arpTable[ip];
        if entry.ttl <= ms {
          arpTable := arpTable - {ip};
        } else {
          arpTable := arpTable[ip := entry.(ttl := entry.ttl - ms)];
        }
        keys := keys - {ip};
      }
      assert arpTable.Keys == Aged(t0, ms).Keys;
    }

    /** Lines 141-163: re-broadcast the pending requests that ran out, age the others. */
    method RenewRequests(ms: nat) returns (ghost order: seq<u32>)
      modifies this`requests, this`outbound
      ensures requests == Renewed(old(requests), ms, requestTtl)
      ensures Enumerates(order, set ip | ip in old(requests) && old(requests)[ip] <= ms)
      ensures outbound == old(outbound) + RequestFrames(order)
    {
      ghost var q0, o0 := requests, outbound;
      var keys := requests.Keys;
      order := [];
      while keys != {}
        invariant keys <= q0.Keys && requests.Keys == q0.Keys
        invariant forall ip | ip in requests :: requests[ip] == if ip in keys then q0[ip] else if q0[ip] <= ms then requestTtl else q0[ip] - ms
        invariant forall i, j | 0 <= i < j < |order| :: order[i] != order[j]
        invariant forall ip :: ip in order <==> ip in q0 && ip !in keys && q0[ip] <= ms
        invariant outbound == o0 + RequestFrames(order)
        decreases keys
      {
        var ip :| ip in keys;
        if requests[ip] <= ms {
          assert RequestFrames(order + [ip]) == RequestFrames(order) + [RequestFrame(ip)];
          outbound := outbound + [RequestFrame(ip)];
          requests := requests[ip := requestTtl];
          order := order + [ip];
        } else {
          requests := requests[ip := requests[ip] - ms];
        }
        keys := keys - {ip};
      }
      assert requests == Renewed(q0, ms, requestTtl);
    }

    /** `maybe_send` (lines 166-175): hand out the oldest queued frame, if any. */
    method MaybeSend() returns (r: Option<EthernetFrame>)
      modifies this`outbound
      ensures old(outbound) == [] ==> r == None && outbound == []
      ensures old(outbound) != [] ==> r == Some(old(outbound)[0]) && outbound == old(outbound)[1..]
    {
      if outbound == [] {
        return None;
      }
      r := Some(outbound[0]);
      outbound := outbound[1..];
    }
  }
}
