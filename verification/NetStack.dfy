/** The network side as one machine: senders, receivers and the poll loop over
    the shared buffer pool, address cache and netboot state
    (net/ip6.c, net/udp6.c, net/icmp6.c, net/eth.c, net/net.c, net/netboot.c). */
module NetStack {
  import opened Words
  import opened Memory
  import opened Checksum
  import opened Frames
  import opened BufPool
  import opened NetTrace
  import Netboot

  class Stack {
    const pool: Pool
    const node: Node
    const receiver: Netboot.Receiver
    const decode: seq<byte> -> Netboot.Message
    const encode: Outgoing -> seq<byte>
    var remoteMac: Mac
    var remoteIp: Ip6
    var advertised: bool
    /** Frames handed over and messages handled, in order. */
    var trace: seq<Event>
    ghost var flying: map<nat, seq<byte>>

    ghost function Cfg(): Config { Config(node, pool.mask, pool.phys, decode, encode) }

    ghost function State(): View
      reads this, pool, receiver
    {
      View(trace, pool.free, flying, remoteMac, remoteIp, receiver.View(), advertised)
    }

    /** Between sends: no buffer is in a sender's hands, and the frames the NIC
        has are still in their slots. */
    ghost predicate Sending()
      reads this, pool
    {
      && pool.Valid() && pool.held == {} && Codec(encode)
      && flying.Keys == pool.nic && InFlight(pool.mem, pool.phys, flying)
    }

    /** Between polls. */
    ghost predicate Valid()
      reads this, pool, receiver
    {
      Sending() && Settled(Cfg(), State())
    }

    /** net_ip6_packet_setup, once the address is resolved. */
    method PacketSetup(p: nat, mac: Mac, to: Ip6, length: u16, next: byte, ghost slot: nat)
      requires pool.Valid() && slot in pool.held && p == slot + 8
      modifies pool`mem
      ensures pool.Valid() && Bytes(pool.mem, p, 54) == Header(mac, node.mac, node.ll, to, length, next)
      ensures SlotOnly(old(pool.mem), pool.mem, slot)
    {
      hide Slots, Linked, Bytes, Copy;
      assert Bytes(pool.mem, p, 0) == [] by { NoBytes(pool.mem, p); }
      pool.Put(p, 0, mac, slot);
      pool.Put(p, 6, node.mac, slot);
      pool.Put(p, 12, Big16(0x86DD), slot);
      pool.Put(p, 14, [0x60, 0, 0, 0], slot);
      pool.Put(p, 18, Big16(length), slot);
      pool.Put(p, 20, [next], slot);
      pool.Put(p, 21, [255], slot);
      pool.Put(p, 22, node.ll, slot);
      pool.Put(p, 38, to, slot);
    }

    /** net_eth_send: hand the frame to the NIC, or take the buffer back. */
    method EthSend(p: nat, s: Sent, txOk: bool, slot: nat)
      requires pool.Valid() && pool.held == {slot} && p == slot + 8 && slot !in pool.nic
      requires 8 + |s.frame| <= SLOT && s.frame == Bytes(pool.mem, p, |s.frame|)
      requires flying.Keys == pool.nic && InFlight(pool.mem, pool.phys, flying)
      modifies pool, this`trace, this`flying
      ensures pool.Valid() && pool.held == {} && trace == old(trace) + [Frame(s)]
      ensures flying.Keys == pool.nic && InFlight(pool.mem, pool.phys, flying)
      ensures if txOk then flying == old(flying)[slot := s.frame] && pool.free == old(pool.free)
              else flying == old(flying) && pool.free == [slot] + old(pool.free)
    {
      hide SlotOf, Linked, Bytes;
      trace := trace + [Frame(s)];
      if txOk {
        pool.Transmitted(p, slot);
        flying := flying[slot := s.frame];
      } else {
        Masking(pool.mask, pool.phys, slot, 8);
        pool.Return(p);
        StillInFlight(old(pool.mem), pool.mem, pool.phys, flying, slot);
      }
    }

    /** net_udp6_send */
    method UdpSend(payload: seq<byte>, to: Ip6, dport: u16, sport: u16, txOk: bool)
      requires Sending() && |payload| <= MAX_PAYLOAD
      modifies pool, this`trace, this`flying
      ensures Sending() && State() == Send(node, old(State()), to, Datagram(sport, dport, payload), txOk)
    {
      hide SlotOf, Linked, Bytes, Slots, UdpFrame, IcmpFrame, Distinct, InFlight, LinkOnly, SlotOnly, Codec, Resolve;
      var got := pool.Get(ETH_MTU);
      if got.None? { return; }
      var p := got.value;
      var slot := p - 8;
      FreeNotFlying(old(pool.mem), pool.mem, pool.phys, flying, slot);
      var mac := Resolve(remoteMac, remoteIp, to);
      if mac.None? {
        GiveBack(p, slot);
        return;
      }
      ghost var m1 := pool.mem;
      var frame := UdpBuild(p, mac.value, to, dport, sport, payload, slot);
      StillInFlight(m1, pool.mem, pool.phys, flying, slot);
      EthSend(p, Sent(frame, mac.value, to, Datagram(sport, dport, payload)), txOk, slot);
    }

    /** The `fail` label of both senders. */
    method GiveBack(p: nat, slot: nat)
      requires pool.Valid() && pool.held == {slot} && p == slot + 8
      requires flying.Keys == pool.nic && InFlight(pool.mem, pool.phys, flying)
      modifies pool
      ensures pool.Valid() && pool.held == {} && pool.nic == old(pool.nic) && pool.free == [slot] + old(pool.free)
      ensures InFlight(pool.mem, pool.phys, flying)
    {
      hide SlotOf, Linked, Bytes, Slots, Distinct, InFlight;
      Masking(pool.mask, pool.phys, slot, 8);
      pool.Return(p);
      StillInFlight(old(pool.mem), pool.mem, pool.phys, flying, slot);
    }

    /** The stores of net_udp6_send. */
    method UdpBuild(p: nat, mac: Mac, to: Ip6, dport: u16, sport: u16, payload: seq<byte>, ghost slot: nat) returns (frame: seq<byte>)
      requires pool.Valid() && slot in pool.held && p == slot + 8 && |payload| <= MAX_PAYLOAD
      modifies pool`mem
      ensures pool.Valid() && frame == Bytes(pool.mem, p, |frame|) && SlotOnly(old(pool.mem), pool.mem, slot)
      ensures frame == UdpFrame(mac, node.mac, node.ll, to, sport, dport, payload)
    {
      hide Linked, Bytes, Slots, Copy, UdpFrame, SlotOf, Distinct;
      var length := |payload| + 8;
      PacketSetup(p, mac, to, length, UDP, slot);
      pool.Put(p, 54, Big16(sport), slot);
      pool.Put(p, 56, Big16(dport), slot);
      pool.Put(p, 58, Big16(length), slot);
      pool.Put(p, 60, [0, 0], slot);
      pool.Put(p, 62, payload, slot);
      frame := Bytes(pool.mem, p, 62 + |payload|);
      UdpLayout(frame, mac, node, to, sport, dport, payload);
      var checksum := NetChecksum(frame, UDP, length);
      BytesPatched(pool.mem, p, 60, checksum, 62 + |payload|);
      pool.Put(p, 60, Little16(checksum), slot);
      frame := Bytes(pool.mem, p, 62 + |payload|);
    }

    /** net_icmp6_send */
    method IcmpSend(data: seq<byte>, to: Ip6, txOk: bool)
      requires Sending()
      modifies pool, this`trace, this`flying
      ensures Sending() && State() == Send(node, old(State()), to, Icmp(data), txOk)
    {
      hide SlotOf, Linked, Bytes, Slots, UdpFrame, IcmpFrame, Distinct, InFlight, LinkOnly, SlotOnly, Codec, Resolve;
      var got := pool.Get(ETH_MTU);
      if got.None? { return; }
      var p := got.value;
      var slot := p - 8;
      FreeNotFlying(old(pool.mem), pool.mem, pool.phys, flying, slot);
      var mac := Resolve(remoteMac, remoteIp, to);
      if |data| > ETH_MTU - 14 - 40 || mac.None? {
        GiveBack(p, slot);
        return;
      }
      ghost var m1 := pool.mem;
      var frame := IcmpBuild(p, mac.value, to, data, slot);
      StillInFlight(m1, pool.mem, pool.phys, flying, slot);
      EthSend(p, Sent(frame, mac.value, to, Icmp(data)), txOk, slot);
    }

    /** The stores of net_icmp6_send. */
    method IcmpBuild(p: nat, mac: Mac, to: Ip6, data: seq<byte>, ghost slot: nat) returns (frame: seq<byte>)
      requires pool.Valid() && slot in pool.held && p == slot + 8 && |data| <= 1460
      modifies pool`mem
      ensures pool.Valid() && frame == Bytes(pool.mem, p, |frame|) && SlotOnly(old(pool.mem), pool.mem, slot)
      ensures frame == IcmpFrame(mac, node.mac, node.ll, to, data)
    {
      hide Linked, Bytes, Slots, Copy, IcmpFrame, SlotOf, Distinct;
      PacketSetup(p, mac, to, |data|, ICMP6, slot);
      pool.Put(p, 54, data, slot);
      frame := Bytes(pool.mem, p, 54 + |data|);
      IcmpLayout(frame, mac, node, to, data);
      var checksum := NetChecksum(frame, ICMP6, |data|);
      BytesPatched(pool.mem, p, 56, checksum, 54 + |data|);
      pool.Put(p, 56, Little16(checksum), slot);
      frame := Bytes(pool.mem, p, 54 + |data|);
    }

    /** net_open, once the pool is filled and the addresses are known. */
    constructor (pool: Pool, node: Node, receiver: Netboot.Receiver, decode: seq<byte> -> Netboot.Message, encode: Outgoing -> seq<byte>)
      requires pool.Valid() && pool.held == {} && pool.nic == {} && pool.free != [] && receiver.View() == Netboot.INITIAL && Codec(encode)
      ensures Valid() && trace == [] && !advertised && this.pool == pool && this.receiver == receiver
    {
      hide Settled, InFlight, Linked, Distinct, Slots, Reachable, Codec;
      this.pool, this.node, this.receiver, this.decode, this.encode := pool, node, receiver, decode, encode;
      remoteMac, remoteIp := NO_MAC, NO_IP;
      trace, advertised, flying := [], false, map[];
      new;
      Opened(Cfg(), State());
      NothingFlying(pool.mem, pool.phys);
    }

    /** netboot_cmd_send */
    method CmdSend(o: Outgoing, txOk: bool)
      requires Sending()
      modifies pool, this`trace, this`flying
      ensures Sending() && State() == Send(node, old(State()), ReplyTo(remoteIp), NetbootDatagram(encode, o), txOk)
    {
      hide Send, Resolve, Unspecified, InFlight, Linked, Distinct, Slots;
      var to := ALL_NODES;
      if !Unspecified(remoteIp) { to := remoteIp; }
      UdpSend(encode(o), to, 57778, NETBOOT_PORT, txOk);
    }

    /** netboot_cmd_receive, with the acknowledgement it sends. */
    method NetbootReceive(bytes: seq<byte>, memory: seq<byte>, txOk: bool)
      requires Sending()
      modifies this`trace, this`flying, pool, receiver
      ensures Sending() && State() == HandleNetboot(Cfg(), old(State()), bytes, memory, txOk)
      ensures Acknowledges(Cfg(), old(State()), Netboot.Delivery(decode(bytes), memory), trace)
    {
      hide Send, ReplyTo, Netboot.Step, InFlight, Linked, Distinct, Slots, Reachable, Acknowledges, NetbootDatagram, Codec;
      ghost var v0 := State();
      MessageAcknowledged(Cfg(), v0, bytes, memory, txOk);
      var msg := decode(bytes);
      var before := |receiver.acks|;
      receiver.Receive(msg, memory);
      trace := trace + [Handled(Netboot.Delivery(msg, memory))];
      if |receiver.acks| > before {
        CmdSend(AckMessage(receiver.acks[before]), txOk);
      }
    }

    /** net_icmp6_receive on the message at offset 54 of the receive buffer. */
    method IcmpReceive(buf: seq<byte>, n: nat, from: Ip6, txOk: bool)
      requires Sending() && |buf| == 2048 && 54 + n <= 2048
      modifies pool, this`trace, this`flying
      ensures Sending() && State() == Respond(node, old(State()), from, IcmpReply(node, buf, n), txOk)
    {
      hide Send, EchoReply, NeighborAdvertisement, ClearedChecksum, InFlight, Linked, Distinct, Slots, Reachable;
      if buf[54] == 128 {
        IcmpSend(EchoReply(buf, n), from, txOk);
      } else if buf[54] == 135 {
        if n < 24 || buf[55] != 0 { return; }
        if buf[21] != 255 || buf[62..78] != node.ll { return; }
        IcmpSend(NeighborAdvertisement(node), from, txOk);
      }
    }

    /** net_eth_receive: frames that fail a check change nothing; any other makes
        its sender the remembered address and is handed on, and whatever goes out
        goes back to that sender. */
    method EthReceive(buf: seq<byte>, len: nat, memory: seq<byte>, txOk: bool)
      requires Sending() && len <= |buf| == 2048
      modifies this`trace, this`flying, this`remoteMac, this`remoteIp, pool, receiver
      ensures Sending() && State() == NetTrace.Receive(Cfg(), old(State()), buf, len, memory, txOk)
      ensures var a := Classify(node, buf, len);
        && (!a.Accepted? ==> State() == old(State()))
        && (a.Accepted? && a.from[0] != 0xFF && !(a.next == UDP && a.from == NO_IP) ==>
              AllGoTo(old(trace), trace, a.fromMac, a.from))
    {
      hide Send, Respond, HandleNetboot, IcmpReply, InFlight, Linked, Distinct, Slots, Reachable, AllGoTo, Unspecified;
      ghost var v0 := State();
      Addressed(Cfg(), v0, buf, len, memory, txOk);
      if len < 54 { return; }
      if buf[12..14] != [0x86, 0xDD] { return; }
      if buf[14] / 16 != 6 { return; }
      var n := Word16(buf[19], buf[18]);
      if n > len - 54 { return; }
      if node.ll != buf[38..54] && node.snm != buf[38..54] && ALL_NODES != buf[38..54] { return; }
      remoteMac, remoteIp := buf[6..12], buf[22..38];
      if buf[20] == UDP {
        if Word16(buf[57], buf[56]) == NETBOOT_PORT {
          NetbootReceive(buf[62..], memory, txOk);
        }
      } else if buf[20] == ICMP6 {
        IcmpReceive(buf, n, buf[22..38], txOk);
      }
    }

    /** The first branch of net_poll. */
    method Advertise(env: Env)
      requires Sending()
      modifies this`trace, this`flying, this`advertised, pool
      ensures Sending() && State() == Advertised(Cfg(), old(State()), env)
    {
      hide Send, ReplyTo, InFlight, Linked, Distinct, Slots, Reachable;
      if !advertised {
        CmdSend(Advertisement, env.advertiseOk);
        advertised := true;
      } else if env.timer && !receiver.stopAdvertising {
        CmdSend(Advertisement, env.advertiseOk);
        SendFlag(node, old(State()), ReplyTo(remoteIp), NetbootDatagram(encode, Advertisement), env.advertiseOk);
      }
    }

    /** The middle of net_poll: take back a buffer the NIC is done with. Returns
        false when GetStatus fails. */
    method Recycle(env: Env) returns (ok: bool)
      requires Sending() && env.Honest(pool.mask, pool.phys)
      modifies pool, this`flying
      ensures Sending() && ok == env.statusOk
      ensures State() == if ok then Recycled(Cfg(), old(State()), env) else old(State())
    {
      hide SlotOf, Linked, Bytes, Slots;
      ok := true;
      AtMostFour(pool.phys, pool.free);
      if pool.avail < 16 {
        if !env.statusOk { return false; }
        var done := env.completed(pool.nic);
        if done.Some? && pool.phys <= done.value < pool.phys + 8192 {
          ghost var slot := SlotOf(pool.mask, done.value);
          flying := flying - {slot};
          pool.Return(done.value);
          StillInFlight(old(pool.mem), pool.mem, pool.phys, flying, slot);
        }
      }
    }

    /** net_poll */
    method Poll(env: Env)
      requires Valid() && env.Honest(pool.mask, pool.phys)
      modifies this, pool, receiver
      ensures Valid() && State() == PollStep(Cfg(), old(State()), env)
    {
      hide Advertised, Recycled, NetTrace.Receive, InFlight, Linked, Distinct, Slots, Reachable, Settled, AllGoTo, Classify, Unspecified;
      PollKeeps(Cfg(), State(), env);
      Advertise(env);
      var ok := Recycle(env);
      if !ok || env.received.None? { return; }
      EthReceive(env.received.value.buf, env.received.value.len, env.memory, env.replyOk);
    }

    /** net_kernel_load: poll until a command ends the loop. Whatever happened, the
        receiver is where the handled messages lead it from its initial state. The
        loop goes on exactly while none of them was one that ends it, stops early
        only for such a message, and handles none after it. */
    method NetKernelLoad(envs: seq<Env>) returns (polls: nat)
      requires Valid() && AllHonest(Cfg(), envs)
      modifies this, pool, receiver
      ensures Valid() && State() == Polls(Cfg(), old(State()), envs)
      ensures receiver.View() == Netboot.Run(Netboot.INITIAL, Deliveries(trace))
      ensures receiver.pollContinue <==> forall e <- trace :: !IsEnd(e)
      ensures polls <= |envs| && (polls < |envs| ==> exists e <- trace :: IsEnd(e))
      ensures old(EndsOnce(trace)) ==> EndsOnce(trace)
    {
      hide PollStep, InFlight, Linked, Distinct, Slots, Reachable, EndsOnce, IsEnd;
      polls := 0;
      assert envs[0..] == envs;
      ghost var v0 := State();
      while polls < |envs| && receiver.pollContinue
        invariant 0 <= polls <= |envs| && Valid()
        invariant AllHonest(Cfg(), envs[polls..]) && Polls(Cfg(), State(), envs[polls..]) == Polls(Cfg(), v0, envs)
      {
        hide Settled;
        assert envs[polls] in envs && envs[polls..][1..] == envs[polls + 1..];
        Poll(envs[polls]);
        polls := polls + 1;
      }
      ContinuesUntilEnd(Cfg(), State());
      if old(EndsOnce(trace)) { PollsEnd(Cfg(), v0, envs); }
    }
  }

  const NO_MAC: Mac := [0, 0, 0, 0, 0, 0]
  const NO_IP: Ip6 := [0, 0, 0, 0, 0, 0, 0, 0, 0, 0, 0, 0, 0, 0, 0, 0]

  lemma Opened(cfg: Config, v: View)
    requires v.trace == [] && v.free != [] && v.remoteIp == NO_IP && v.state == Netboot.INITIAL && !v.advertised
    ensures Settled(cfg, v)
  {
  }

  lemma NothingFlying(m: Mem, phys: nat)
    ensures InFlight(m, phys, map[])
  {
  }

  /** A slot taken from the free list is not at the NIC. */
  lemma FreeNotFlying(m: Mem, m': Mem, phys: nat, nic: map<nat, seq<byte>>, slot: nat)
    requires InFlight(m, phys, nic) && slot in Slots(phys) && slot !in nic && LinkOnly(m, m', slot)
    ensures InFlight(m', phys, nic)
  {
    hide InFlight;
    StillInFlight(m, m', phys, nic, slot);
  }

  /** RepliesToSender for ordinary sources. */
  lemma Addressed(cfg: Config, v: View, buf: seq<byte>, len: nat, memory: seq<byte>, txOk: bool)
    requires len <= |buf| == 2048
    ensures var a := Classify(cfg.node, buf, len);
      a.Accepted? && a.from[0] != 0xFF && !(a.next == UDP && a.from == NO_IP) ==>
        AllGoTo(v.trace, NetTrace.Receive(cfg, v, buf, len, memory, txOk).trace, a.fromMac, a.from)
  {
    hide Classify, NetTrace.Receive, AllGoTo, Unspecified;
    if Classify(cfg.node, buf, len).Accepted? { RepliesToSender(cfg, v, buf, len, memory, txOk); }
  }

  /** No slot is ever lost or duplicated. */
  lemma Conservation(pool: Pool)
    requires pool.Valid() && pool.held == {}
    ensures pool.avail + |pool.nic| == 4
  {
    hide Slots, Linked, Next, Reachable;
    SeqSize(pool.free);
    FourSlots(pool.phys);
    var free := Elements(pool.free);
    assert free + pool.nic == Slots(pool.phys);
    assert free !! pool.nic;
  }

  lemma FourSlots(phys: nat)
    ensures |Slots(phys)| == 4
  {
  }

  function Elements(s: seq<nat>): set<nat> { set x | x in s }

  lemma {:induction false} SeqSize(s: seq<nat>)
    requires Distinct(s)
    ensures |Elements(s)| == |s|
    decreases |s|
  {
    if s != [] {
      var init, last := s[..|s| - 1], s[|s| - 1];
      SeqSize(init);
      assert s == init + [last] && last !in init;
      assert Elements(s) == Elements(init) + {last};
    }
  }

  /** Four slots, so the poll loop always asks the NIC. */
  lemma AtMostFour(phys: nat, free: seq<nat>)
    requires Distinct(free) && forall s <- free :: s in Slots(phys)
    ensures |free| <= 4
  {
    DistinctFits(free, Slots(phys));
  }

  lemma {:induction false} DistinctFits(s: seq<nat>, all: set<nat>)
    requires Distinct(s) && forall x <- s :: x in all
    ensures |s| <= |all|
    decreases |s|
  {
    if s != [] {
      var init, last := s[..|s| - 1], s[|s| - 1];
      assert last in s && last !in init;
      DistinctFits(init, all - {last});
    }
  }

  /** The stores of net_udp6_send spell out the frame before its checksum. */
  lemma UdpLayout(frame: seq<byte>, mac: Mac, node: Node, to: Ip6, sport: u16, dport: u16, payload: seq<byte>)
    requires |payload| <= MAX_PAYLOAD
    requires frame == Header(mac, node.mac, node.ll, to, |payload| + 8, UDP)
      + Big16(sport) + Big16(dport) + Big16(|payload| + 8) + [0, 0] + payload
    ensures |frame| == 62 + |payload|
    ensures UdpFrame(mac, node.mac, node.ll, to, sport, dport, payload) == Patch(frame, 60, CodeChecksum(frame, UDP, |payload| + 8))
  {
    hide Patch, CodeChecksum;
    assert frame == Header(mac, node.mac, node.ll, to, |payload| + 8, UDP) + UdpUpper(sport, dport, payload);
  }

  lemma IcmpLayout(frame: seq<byte>, mac: Mac, node: Node, to: Ip6, data: seq<byte>)
    requires |data| <= 1460 && frame == Header(mac, node.mac, node.ll, to, |data|, ICMP6) + data
    ensures |frame| == 54 + |data|
    ensures IcmpFrame(mac, node.mac, node.ll, to, data) == Patch(frame, 56, CodeChecksum(frame, ICMP6, |data|))
  {
  }

  lemma NoBytes(m: Mem, p: nat)
    ensures Bytes(m, p, 0) == []
  {
  }
}
