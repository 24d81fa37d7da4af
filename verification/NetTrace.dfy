/** The network side seen from outside: what every poll adds to the history of
    frames handed to the NIC and messages handled, and what holds of every such
    history (net/net.c, net/eth.c, net/ip6.c, net/netboot.c). */
module NetTrace {
  import opened Words
  import opened Checksum
  import opened Frames
  import opened BufPool
  import Netboot
  import Transfers

  datatype What = Datagram(sport: u16, dport: u16, payload: seq<byte>) | Icmp(data: seq<byte>) {
    predicate Fits() {
      match this
      case Datagram(_, _, payload) => |payload| <= MAX_PAYLOAD
      case Icmp(data) => |data| <= 1460
    }
  }

  /** A frame handed to net_eth_send. */
  datatype Sent = Sent(frame: seq<byte>, toMac: Mac, to: Ip6, what: What)

  datatype Event = Frame(sent: Sent) | Handled(delivery: Netboot.Delivery)

  datatype Outgoing = Advertisement | AckMessage(ack: Netboot.Ack)

  /** What never changes: addresses, the pool's place, the message structs laid
      over the bytes, and the bytes of an outgoing message. */
  datatype Config = Config(node: Node, mask: nat, phys: u64, decode: seq<byte> -> Netboot.Message, encode: Outgoing -> seq<byte>)

  /** Messages fit into a buffer, the command tells advertisements from
      acknowledgements, and distinct acknowledgements of 64-bit numbers differ. */
  ghost predicate Codec(encode: Outgoing -> seq<byte>) {
    && (forall o :: |encode(o)| <= MAX_PAYLOAD)
    && (forall a :: encode(AckMessage(a)) != encode(Advertisement))
    && (forall a, b | SizeFits(a) && SizeFits(b) && encode(AckMessage(a)) == encode(AckMessage(b)) :: a == b)
  }

  predicate SizeFits(a: Netboot.Ack) { a.FragmentAck? ==> a.fragment < 0x1_0000_0000_0000_0000 }

  /** History, free list, frames at the NIC by slot, address cache, receiver and
      the advertised flag. */
  datatype View = View(
    trace: seq<Event>, free: seq<nat>, nic: map<nat, seq<byte>>,
    remoteMac: Mac, remoteIp: Ip6, state: Netboot.State, advertised: bool)

  // ------------------------------------------------------------------ sending

  predicate ClearedChecksum(data: seq<byte>) { (|data| > 2 ==> data[2] == 0) && (|data| > 3 ==> data[3] == 0) }

  /** The frame that carries these contents between these addresses. */
  function FrameOf(node: Node, toMac: Mac, to: Ip6, what: What): seq<byte>
    requires what.Fits()
  {
    match what
    case Datagram(sport, dport, payload) => UdpFrame(toMac, node.mac, node.ll, to, sport, dport, payload)
    case Icmp(data) => IcmpFrame(toMac, node.mac, node.ll, to, data)
  }

  predicate Sound(node: Node, s: Sent) {
    && s.what.Fits() && s.frame == FrameOf(node, s.toMac, s.to, s.what) && (s.what.Icmp? ==> ClearedChecksum(s.what.data))
    && (s.to[0] == 0xFF ==> s.toMac == [0x33, 0x33] + s.to[12..])
  }

  /** Every frame handed over names the node as its sender, and goes to the MAC and
      the address on record; to a multicast address by the MAC that section 7 of
      RFC 2464 gives it. */
  lemma HandedFields(node: Node, s: Sent)
    requires Sound(node, s)
    ensures |s.frame| >= 54 && s.frame[..6] == s.toMac && s.frame[6..12] == node.mac
    ensures s.frame[22..38] == node.ll && s.frame[38..54] == s.to
    ensures s.to[0] == 0xFF ==> s.frame[..6] == [0x33, 0x33] + s.frame[50..54]
  {
    hide UdpFrame, IcmpFrame;
    assert s.frame[38..54] == s.to ==> s.frame[50..54] == s.to[12..];
    match s.what
    case Datagram(sport, dport, payload) => UdpFields(s.toMac, node.mac, node.ll, s.to, sport, dport, payload);
    case Icmp(data) => IcmpFields(s.toMac, node.mac, node.ll, s.to, data);
  }

  /** Every frame handed over verifies, unless it is an ICMPv6 reply too short
      to hold a checksum. */
  lemma HandedVerifies(node: Node, s: Sent)
    requires Sound(node, s) && (s.what.Icmp? ==> |s.what.data| >= 4)
    ensures match s.what
      case Datagram(_, _, payload) => CodeChecksum(s.frame, UDP, |payload| + 8) == 0
      case Icmp(data) => CodeChecksum(s.frame, ICMP6, |data|) == 0
  {
    hide UdpFrame, IcmpFrame;
    match s.what
    case Datagram(sport, dport, payload) => UdpVerifies(s.toMac, node.mac, node.ll, s.to, sport, dport, payload);
    case Icmp(data) => IcmpVerifies(s.toMac, node.mac, node.ll, s.to, data);
  }

  /** net_ip6_multicast_from_ip6 */
  function MulticastMac(ip: Ip6): Mac { [0x33, 0x33, ip[12], ip[13], ip[14], ip[15]] }

  /** net_ip6_resolve */
  function Resolve(remoteMac: Mac, remoteIp: Ip6, ip: Ip6): Option<Mac> {
    if ip[0] == 0xFF then Some(MulticastMac(ip))
    else if ip == remoteIp then Some(remoteMac)
    else None
  }

  lemma ResolvedMac(remoteMac: Mac, remoteIp: Ip6, ip: Ip6)
    requires Resolve(remoteMac, remoteIp, ip).Some?
    ensures ip[0] == 0xFF ==> Resolve(remoteMac, remoteIp, ip).value == [0x33, 0x33] + ip[12..]
  {
  }

  /** A send: one frame from one free slot, if there is a slot, the contents fit
      and the address resolves; back on the free list if the NIC refuses it. */
  function Send(node: Node, v: View, to: Ip6, what: What, txOk: bool): View {
    var mac := Resolve(v.remoteMac, v.remoteIp, to);
    if v.free == [] || mac.None? || !what.Fits() then v
    else
      var frame := FrameOf(node, mac.value, to, what);
      var v := v.(trace := v.trace + [Frame(Sent(frame, mac.value, to, what))]);
      if txOk then v.(free := v.free[1..], nic := v.nic[v.free[0] := frame]) else v
  }

  /** A reply, if one is due. */
  function Respond(node: Node, v: View, to: Ip6, reply: Option<What>, txOk: bool): View {
    match reply
    case None => v
    case Some(what) => Send(node, v, to, what, txOk)
  }

  /** net_ip6_empty */
  predicate Unspecified(ip: Ip6) { forall b <- ip :: b == 0 }

  /** Where netboot_cmd_send sends. */
  function ReplyTo(remoteIp: Ip6): Ip6 { if Unspecified(remoteIp) then ALL_NODES else remoteIp }

  lemma UnspecifiedIsZero(ip: Ip6)
    ensures Unspecified(ip) <==> ip == [0, 0, 0, 0, 0, 0, 0, 0, 0, 0, 0, 0, 0, 0, 0, 0]
  {
    if Unspecified(ip) {
      forall i | 0 <= i < 16 ensures ip[i] == 0 { assert ip[i] in ip; }
    }
  }

  lemma ReplyResolves(remoteMac: Mac, remoteIp: Ip6)
    ensures Resolve(remoteMac, remoteIp, ReplyTo(remoteIp)).Some?
  {
  }

  function NetbootDatagram(encode: Outgoing -> seq<byte>, o: Outgoing): What { Datagram(NETBOOT_PORT, 57778, encode(o)) }

  // ------------------------------------------------------------------ receiving

  /** The acknowledgement a handled message calls for, if any. */
  function AckReply(encode: Outgoing -> seq<byte>, before: Netboot.State, after: Netboot.State): Option<What> {
    if |after.acks| > |before.acks| then Some(NetbootDatagram(encode, AckMessage(after.acks[|before.acks|]))) else None
  }

  /** The echo request turned into its reply in place. */
  function EchoReply(buf: seq<byte>, n: nat): (r: seq<byte>)
    requires |buf| == 2048 && 54 + n <= 2048
    ensures |r| == n && ClearedChecksum(r) && (n > 0 ==> r[0] == 129) && (n > 1 ==> r[1] == buf[55])
    ensures forall i | 4 <= i < n :: r[i] == buf[54 + i]
  {
    buf[56 := 0][57 := 0][54 := 129][54..54 + n]
  }

  /** Solicited and override flags, the target, and its link-layer address option. */
  function NeighborAdvertisement(node: Node): (r: seq<byte>)
    ensures |r| == 32 && ClearedChecksum(r)
  {
    [136, 0, 0, 0, 0x60, 0, 0, 0] + node.ll + [2, 1] + node.mac
  }

  /** The ICMPv6 answer to the n bytes at offset 54: an echo, or an advertisement
      for a valid solicitation of the node's own address (section 7.1.1 of RFC 4861). */
  function IcmpReply(node: Node, buf: seq<byte>, n: nat): Option<What>
    requires |buf| == 2048 && 54 + n <= 2048
  {
    if buf[54] == 128 then Some(Icmp(EchoReply(buf, n)))
    else if buf[54] == 135 && n >= 24 && buf[55] == 0 && buf[21] == 255 && buf[62..78] == node.ll
    then Some(Icmp(NeighborAdvertisement(node)))
    else None
  }

  /** A netboot message: handled first, then acknowledged. */
  function HandleNetboot(cfg: Config, v: View, bytes: seq<byte>, memory: seq<byte>, txOk: bool): View {
    var d := Netboot.Delivery(cfg.decode(bytes), memory);
    var after := Netboot.Step(v.state, d.msg, d.pool);
    Respond(cfg.node, v.(trace := v.trace + [Handled(d)], state := after),
            ReplyTo(v.remoteIp), AckReply(cfg.encode, v.state, after), txOk)
  }

  /** A received frame: the sender is remembered before anything is handled. */
  function Receive(cfg: Config, v: View, buf: seq<byte>, len: nat, memory: seq<byte>, txOk: bool): View
    requires len <= |buf| == 2048
  {
    match Classify(cfg.node, buf, len)
    case Accepted(fromMac, from, next, length) =>
      var v := v.(remoteMac := fromMac, remoteIp := from);
      if next == UDP then
        (match UdpDispatch(buf)
         case Some(bytes) => HandleNetboot(cfg, v, bytes, memory, txOk)
         case None => v)
      else if next == ICMP6 then Respond(cfg.node, v, from, IcmpReply(cfg.node, buf, length), txOk)
      else v
    case _ => v
  }

  // ------------------------------------------------------------------ polling

  datatype Received = Received(buf: seq<byte>, len: nat)

  /** What the firmware answers during one poll. GetStatus sees which buffers
      the NIC holds and names at most one that it is done with. */
  datatype Env = Env(
    timer: bool, advertiseOk: bool, statusOk: bool, completed: set<nat> -> Option<u64>,
    received: Option<Received>, memory: seq<byte>, replyOk: bool)
  {
    predicate WellSized() { received.Some? ==> received.value.len <= |received.value.buf| == 2048 }

    ghost predicate Honest(mask: nat, phys: nat) {
      && (forall nic :: completed(nic).Some? && phys <= completed(nic).value < phys + 8192 ==> SlotOf(mask, completed(nic).value) in nic)
      && WellSized()
    }
  }

  /** The first advertisement always, later ones when the timer has run out and
      the server has not said stop. */
  function Advertised(cfg: Config, v: View, env: Env): View {
    if !v.advertised || (env.timer && !v.state.stopAdvertising)
    then Send(cfg.node, v, ReplyTo(v.remoteIp), NetbootDatagram(cfg.encode, Advertisement), env.advertiseOk).(advertised := true)
    else v
  }

  /** A buffer the NIC is done with goes back to the free list. */
  function Recycled(cfg: Config, v: View, env: Env): View {
    var done := env.completed(v.nic.Keys);
    if done.Some? && cfg.phys <= done.value < cfg.phys + 8192
    then v.(free := [SlotOf(cfg.mask, done.value)] + v.free, nic := v.nic - {SlotOf(cfg.mask, done.value)})
    else v
  }

  /** net_poll */
  function PollStep(cfg: Config, v: View, env: Env): View
    requires env.WellSized()
  {
    var v := Advertised(cfg, v, env);
    if !env.statusOk then v
    else
      var v := Recycled(cfg, v, env);
      match env.received
      case None => v
      case Some(r) => Receive(cfg, v, r.buf, r.len, env.memory, env.replyOk)
  }

  ghost predicate AllHonest(cfg: Config, envs: seq<Env>) { forall env <- envs :: env.Honest(cfg.mask, cfg.phys) }

  /** net_kernel_load: poll until a command ends the loop. */
  ghost function Polls(cfg: Config, v: View, envs: seq<Env>): View
    requires AllHonest(cfg, envs)
    decreases |envs|
  {
    if envs == [] || !v.state.pollContinue then v
    else
      assert envs[0] in envs;
      Polls(cfg, PollStep(cfg, v, envs[0]), envs[1..])
  }

  // ------------------------------------------------------------------ every history

  predicate IsAdvert(cfg: Config, e: Event) { e.Frame? && e.sent.what == NetbootDatagram(cfg.encode, Advertisement) }

  predicate IsStop(e: Event) { e.Handled? && e.delivery.msg.StopAdvertising? }

  /** The messages handled, in order. */
  function Deliveries(trace: seq<Event>): seq<Netboot.Delivery> {
    if trace == [] then []
    else
      var init, e := trace[..|trace| - 1], trace[|trace| - 1];
      if e.Handled? then Deliveries(init) + [e.delivery] else Deliveries(init)
  }

  /** The first thing that ever happens is an advertisement going out, and none
      goes out after CMD_STOP_ADVERTISING was handled. */
  ghost predicate Ordered(cfg: Config, trace: seq<Event>, stopped: bool) {
    && (trace != [] ==> IsAdvert(cfg, trace[0]))
    && (stopped <==> exists i :: 0 <= i < |trace| && IsStop(trace[i]))
    && (forall i, j :: 0 <= i < j < |trace| && IsStop(trace[i]) ==> !IsAdvert(cfg, trace[j]))
  }

  /** Nothing happens before the first poll. */
  predicate Fresh(v: View) { v.advertised || (v.trace == [] && v.free != [] && Unspecified(v.remoteIp)) }

  ghost predicate AllSound(node: Node, trace: seq<Event>) { forall e <- trace :: e.Frame? ==> Sound(node, e.sent) }

  /** What holds between any two polls. */
  ghost predicate Settled(cfg: Config, v: View) {
    && Ordered(cfg, v.trace, v.state.stopAdvertising) && (v.advertised ==> v.trace != []) && Fresh(v)
    && AllSound(cfg.node, v.trace)
    && v.state == Netboot.Run(Netboot.INITIAL, Deliveries(v.trace))
  }

  lemma OneMoreFrame(cfg: Config, trace: seq<Event>, s: Sent, stopped: bool)
    requires AllSound(cfg.node, trace) && Sound(cfg.node, s) && Ordered(cfg, trace, stopped)
    requires if IsAdvert(cfg, Frame(s)) then !stopped else trace != []
    ensures AllSound(cfg.node, trace + [Frame(s)]) && Ordered(cfg, trace + [Frame(s)], stopped)
    ensures Deliveries(trace + [Frame(s)]) == Deliveries(trace)
  {
    hide Sound;
    var t := trace + [Frame(s)];
    assert t[..|trace|] == trace;
    if stopped {
      var i :| 0 <= i < |trace| && IsStop(trace[i]);
      assert IsStop(t[i]);
    }
  }

  lemma OneMoreMessage(cfg: Config, trace: seq<Event>, d: Netboot.Delivery, stopped: bool)
    requires AllSound(cfg.node, trace) && Ordered(cfg, trace, stopped) && trace != []
    ensures AllSound(cfg.node, trace + [Handled(d)]) && Ordered(cfg, trace + [Handled(d)], stopped || d.msg.StopAdvertising?)
    ensures Deliveries(trace + [Handled(d)]) == Deliveries(trace) + [d]
  {
    hide Sound;
    var t := trace + [Handled(d)];
    assert t[..|trace|] == trace && t[|trace|] == Handled(d);
    if stopped {
      var i :| 0 <= i < |trace| && IsStop(trace[i]);
      assert IsStop(t[i]);
    }
  }

  lemma StepFacts(s: Netboot.State, msg: Netboot.Message, memory: seq<byte>)
    ensures var s' := Netboot.Step(s, msg, memory);
      s'.stopAdvertising == (s.stopAdvertising || msg.StopAdvertising?) && |s.acks| <= |s'.acks|
  {
  }

  /** Sending anything but an advertisement keeps the history in order, once it has begun. */
  lemma SendKeeps(cfg: Config, v: View, to: Ip6, what: What, txOk: bool)
    requires Settled(cfg, v) && (what.Icmp? ==> ClearedChecksum(what.data))
    requires if what == NetbootDatagram(cfg.encode, Advertisement) then !v.state.stopAdvertising && v.trace != [] else v.advertised
    ensures Settled(cfg, Send(cfg.node, v, to, what, txOk))
  {
    hide Ordered, AllSound, Resolve, Netboot.Run, Netboot.Step, FrameOf, ClearedChecksum, Unspecified, Deliveries;
    var mac := Resolve(v.remoteMac, v.remoteIp, to);
    if !(v.free == [] || mac.None? || !what.Fits()) {
      ResolvedMac(v.remoteMac, v.remoteIp, to);
      OneMoreFrame(cfg, v.trace, Sent(FrameOf(cfg.node, mac.value, to, what), mac.value, to, what), v.state.stopAdvertising);
    }
  }

  /** The very first send cannot fail to hand its frame over. */
  lemma FirstAdvert(cfg: Config, v: View, txOk: bool)
    requires Settled(cfg, v) && !v.advertised && Codec(cfg.encode)
    ensures Settled(cfg, Send(cfg.node, v, ReplyTo(v.remoteIp), NetbootDatagram(cfg.encode, Advertisement), txOk).(advertised := true))
  {
    hide AllSound, Netboot.Run, Netboot.Step, FrameOf, ClearedChecksum, Deliveries;
    var what := NetbootDatagram(cfg.encode, Advertisement);
    var mac := MulticastMac(ALL_NODES);
    NotStopped(cfg, v);
    OneMoreFrame(cfg, v.trace, Sent(FrameOf(cfg.node, mac, ALL_NODES, what), mac, ALL_NODES, what), false);
  }

  lemma NotStopped(cfg: Config, v: View)
    requires Settled(cfg, v) && !v.advertised
    ensures !v.state.stopAdvertising
  {
  }

  lemma AdvertisedKeeps(cfg: Config, v: View, env: Env)
    requires Settled(cfg, v) && Codec(cfg.encode)
    ensures Settled(cfg, Advertised(cfg, v, env)) && Advertised(cfg, v, env).advertised
  {
    hide Settled, Send;
    if !v.advertised {
      FirstAdvert(cfg, v, env.advertiseOk);
    } else if env.timer && !v.state.stopAdvertising {
      Begun(cfg, v);
      SendKeeps(cfg, v, ReplyTo(v.remoteIp), NetbootDatagram(cfg.encode, Advertisement), env.advertiseOk);
      SendFlag(cfg.node, v, ReplyTo(v.remoteIp), NetbootDatagram(cfg.encode, Advertisement), env.advertiseOk);
    }
  }

  lemma Begun(cfg: Config, v: View)
    requires Settled(cfg, v) && v.advertised
    ensures v.trace != []
  {
  }

  lemma SendFlag(node: Node, v: View, to: Ip6, what: What, txOk: bool)
    ensures Send(node, v, to, what, txOk).(advertised := v.advertised) == Send(node, v, to, what, txOk)
  {
  }

  /** Handling a message, and acknowledging it, keep the history in order. */
  lemma HandleKeeps(cfg: Config, v: View, bytes: seq<byte>, memory: seq<byte>, txOk: bool)
    requires Settled(cfg, v) && v.advertised && Codec(cfg.encode)
    ensures Settled(cfg, HandleNetboot(cfg, v, bytes, memory, txOk))
  {
    hide Ordered, AllSound, Netboot.Step, Send, Deliveries;
    var d := Netboot.Delivery(cfg.decode(bytes), memory);
    StepFacts(v.state, d.msg, d.pool);
    OneMoreMessage(cfg, v.trace, d, v.state.stopAdvertising);
    RunLast(Deliveries(v.trace), d);
    var after := Netboot.Step(v.state, d.msg, d.pool);
    var v1 := v.(trace := v.trace + [Handled(d)], state := after);
    assert Settled(cfg, v1);
    var reply := AckReply(cfg.encode, v.state, after);
    if reply.Some? { SendKeeps(cfg, v1, ReplyTo(v.remoteIp), reply.value, txOk); }
  }

  lemma RunLast(run: seq<Netboot.Delivery>, d: Netboot.Delivery)
    ensures Netboot.Run(Netboot.INITIAL, run + [d]) == Netboot.Step(Netboot.Run(Netboot.INITIAL, run), d.msg, d.pool)
  {
    assert (run + [d])[..|run|] == run;
  }

  lemma ReceiveKeeps(cfg: Config, v: View, buf: seq<byte>, len: nat, memory: seq<byte>, txOk: bool)
    requires Settled(cfg, v) && v.advertised && Codec(cfg.encode) && len <= |buf| == 2048
    ensures Settled(cfg, Receive(cfg, v, buf, len, memory, txOk))
  {
    hide Ordered, AllSound, Netboot.Step, Netboot.Run, Send, HandleNetboot, Deliveries, EchoReply, NeighborAdvertisement, ClearedChecksum;
    match Classify(cfg.node, buf, len)
    case Accepted(fromMac, from, next, length) =>
      var v1 := v.(remoteMac := fromMac, remoteIp := from);
      assert Settled(cfg, v1);
      if next == UDP {
        if UdpDispatch(buf).Some? { HandleKeeps(cfg, v1, UdpDispatch(buf).value, memory, txOk); }
      } else if next == ICMP6 {
        var reply := IcmpReply(cfg.node, buf, length);
        if reply.Some? { SendKeeps(cfg, v1, from, reply.value, txOk); }
      }
    case _ =>
  }

  /** Every poll, whatever the firmware and the network do. */
  lemma PollKeeps(cfg: Config, v: View, env: Env)
    requires Settled(cfg, v) && Codec(cfg.encode) && env.WellSized()
    ensures Settled(cfg, PollStep(cfg, v, env)) && PollStep(cfg, v, env).advertised
  {
    hide Ordered, AllSound, Netboot.Run, Send, Receive, Advertised, Deliveries;
    AdvertisedKeeps(cfg, v, env);
    var v1 := Recycled(cfg, Advertised(cfg, v, env), env);
    assert Settled(cfg, v1);
    if env.statusOk && env.received.Some? {
      var r := env.received.value;
      ReceiveKeeps(cfg, v1, r.buf, r.len, env.memory, env.replyOk);
      ReceiveFlag(cfg, v1, r.buf, r.len, env.memory, env.replyOk);
    }
  }

  lemma ReceiveFlag(cfg: Config, v: View, buf: seq<byte>, len: nat, memory: seq<byte>, txOk: bool)
    requires len <= |buf| == 2048
    ensures Receive(cfg, v, buf, len, memory, txOk).advertised == v.advertised
  {
    hide Netboot.Step, Classify, UdpDispatch, AckReply, IcmpReply;
  }

  /** Every run of the loop. */
  lemma {:induction false} PollsKeep(cfg: Config, v: View, envs: seq<Env>)
    requires Settled(cfg, v) && Codec(cfg.encode) && AllHonest(cfg, envs)
    ensures Settled(cfg, Polls(cfg, v, envs))
    decreases |envs|
  {
    hide Settled, PollStep;
    if envs != [] && v.state.pollContinue {
      assert envs[0] in envs;
      PollKeeps(cfg, v, envs[0]);
      PollsKeep(cfg, PollStep(cfg, v, envs[0]), envs[1..]);
    }
  }

  // ------------------------------------------------------------------ what a message brings about

  /** The event is a datagram from port 57777 to port 57778 with these contents. */
  predicate IsNetbootFrame(e: Event, payload: seq<byte>) {
    e.Frame? && |e.sent.frame| >= 62 && e.sent.frame[54..58] == [0xE1, 0xB1, 0xE1, 0xB2] && e.sent.frame[62..] == payload
  }

  /** A handled message and what goes out for it, while a buffer is free: an
      announcement is acknowledged as such, a fragment during a transfer with the
      smaller of its number and the count stored before it, anything else not at
      all. Without a free buffer nothing goes out. */
  predicate Acknowledges(cfg: Config, v: View, d: Netboot.Delivery, after: seq<Event>) {
    var n := |v.trace|;
    var fragment := d.msg.Fragment? && v.state.phase.FileTransfer? && v.state.info.Some?;
    && n < |after| && after[..n] == v.trace && after[n] == Handled(d)
    && (v.free == [] || (!d.msg.FileSendInit? && !fragment) ==> |after| == n + 1)
    && (v.free != [] && d.msg.FileSendInit? ==> |after| == n + 2 && IsNetbootFrame(after[n + 1], cfg.encode(AckMessage(Netboot.InitAck))))
    && (v.free != [] && fragment ==>
          var k := if d.msg.id < v.state.packets then d.msg.id else v.state.packets;
          |after| == n + 2 && IsNetbootFrame(after[n + 1], cfg.encode(AckMessage(Netboot.FragmentAck(k)))))
  }

  lemma NetbootFields(node: Node, mac: Mac, to: Ip6, encode: Outgoing -> seq<byte>, o: Outgoing)
    requires |encode(o)| <= MAX_PAYLOAD
    ensures IsNetbootFrame(Frame(Sent(FrameOf(node, mac, to, NetbootDatagram(encode, o)), mac, to, NetbootDatagram(encode, o))), encode(o))
  {
    hide UdpFrame;
    UdpFields(mac, node.mac, node.ll, to, NETBOOT_PORT, 57778, encode(o));
  }

  lemma MessageAcknowledged(cfg: Config, v: View, bytes: seq<byte>, memory: seq<byte>, txOk: bool)
    requires Codec(cfg.encode)
    ensures Acknowledges(cfg, v, Netboot.Delivery(cfg.decode(bytes), memory), HandleNetboot(cfg, v, bytes, memory, txOk).trace)
  {
    hide Netboot.Step, FrameOf, Resolve, ReplyTo, NetbootDatagram, IsNetbootFrame;
    var d := Netboot.Delivery(cfg.decode(bytes), memory);
    Netboot.AckOfStep(v.state, d.msg, d.pool);
    var after := Netboot.Step(v.state, d.msg, d.pool);
    ReplyResolves(v.remoteMac, v.remoteIp);
    if |after.acks| > |v.state.acks| {
      var o := AckMessage(after.acks[|v.state.acks|]);
      var to := ReplyTo(v.remoteIp);
      NetbootFits(cfg.encode, o);
      NetbootFields(cfg.node, Resolve(v.remoteMac, v.remoteIp, to).value, to, cfg.encode, o);
    }
  }

  lemma NetbootFits(encode: Outgoing -> seq<byte>, o: Outgoing)
    requires |encode(o)| <= MAX_PAYLOAD
    ensures NetbootDatagram(encode, o).Fits()
  {
  }

  /** A datagram to port 57777 that passes the checks is handled, whatever it holds,
      with its sender remembered first; one to any other port is not. */
  lemma DatagramHandled(cfg: Config, v: View, toMac: Mac, fromMac: Mac, flow: seq<byte>, length: u16, hop: byte, from: Ip6, to: Ip6,
                        data: seq<byte>, buf: seq<byte>, memory: seq<byte>, txOk: bool)
    requires |flow| == 4 && 0x60 <= flow[0] <= 0x6F && length <= |data| && to in [cfg.node.ll, cfg.node.snm, ALL_NODES] && |buf| == 2048
    requires WireHeader(toMac, fromMac, [0x86, 0xDD], flow, length, 17, hop, from, to) + data <= buf
    ensures 54 + |data| <= 2048
    ensures Receive(cfg, v, buf, 54 + |data|, memory, txOk) ==
      var v := v.(remoteMac := fromMac, remoteIp := from);
      if buf[56..58] == [0xE1, 0xB1] then HandleNetboot(cfg, v, buf[62..], memory, txOk) else v
  {
    hide Classify, HandleNetboot, UdpDispatch;
    AcceptsExactly(cfg.node, toMac, fromMac, [0x86, 0xDD], flow, length, 17, hop, from, to, data, buf);
    DispatchesPort(buf);
  }

  /** The neighbour advertisement of section 4.4 of RFC 4861: type 136, code 0,
      solicited and override flags, the node as target, and its MAC as the one
      option; to the MAC and the address that asked. */
  predicate IsNeighborAdvertisement(node: Node, e: Event, toMac: Mac, to: Ip6) {
    && e.Frame? && e.sent.toMac == toMac && e.sent.to == to && |e.sent.frame| == 86
    && e.sent.frame[..6] == toMac && e.sent.frame[20] == 58 && e.sent.frame[22..38] == node.ll && e.sent.frame[38..54] == to
    && e.sent.frame[54..56] == [136, 0] && e.sent.frame[58..62] == [0x60, 0, 0, 0] && e.sent.frame[62..78] == node.ll
    && e.sent.frame[78..80] == [2, 1] && e.sent.frame[80..86] == node.mac
  }

  lemma AdvertisementFields(node: Node, mac: Mac, to: Ip6)
    ensures Icmp(NeighborAdvertisement(node)).Fits()
    ensures IsNeighborAdvertisement(node, Frame(Sent(FrameOf(node, mac, to, Icmp(NeighborAdvertisement(node))), mac, to,
                                                     Icmp(NeighborAdvertisement(node)))), mac, to)
  {
    hide IcmpFrame, NeighborAdvertisement;
    var data := NeighborAdvertisement(node);
    var f := IcmpFrame(mac, node.mac, node.ll, to, data);
    IcmpFields(mac, node.mac, node.ll, to, data);
    assert |f| == 86 && f[58..86] == f[58..] == data[4..32];
    Behind58(f, data, 4, 8);
    Behind58(f, data, 8, 24);
    Behind58(f, data, 24, 26);
    Behind58(f, data, 26, 32);
    AdvertisementBytes(node);
  }

  lemma Behind58(f: seq<byte>, data: seq<byte>, k: nat, l: nat)
    requires |f| == 86 && |data| == 32 && f[58..86] == data[4..32] && 4 <= k <= l <= 32
    ensures f[54 + k..54 + l] == data[k..l]
  {
    SubSlice(f, 58, 86, k - 4, l - 4);
    SubSlice(data, 4, 32, k - 4, l - 4);
  }

  lemma AdvertisementBytes(node: Node)
    ensures var data := NeighborAdvertisement(node);
      && data[..2] == [136, 0] && data[4..8] == [0x60, 0, 0, 0] && data[8..24] == node.ll
      && data[24..26] == [2, 1] && data[26..32] == node.mac
  {
  }

  lemma SubSlice(s: seq<byte>, i: nat, j: nat, k: nat, l: nat)
    requires i <= j <= |s| && k <= l <= j - i
    ensures s[i..j][k..l] == s[i + k..i + l]
  {
    var a, b := s[i..j][k..l], s[i + k..i + l];
    assert |a| == |b|;
    forall x | 0 <= x < |a| ensures a[x] == b[x] { assert a[x] == s[i..j][k + x]; }
  }

  /** The echo reply to these message bytes: type 129, the rest as it came. */
  predicate IsEchoReply(node: Node, e: Event, toMac: Mac, to: Ip6, message: seq<byte>) {
    && e.Frame? && e.sent.toMac == toMac && e.sent.to == to && |e.sent.frame| == 54 + |message| && |message| > 0
    && e.sent.frame[..6] == toMac && e.sent.frame[20] == 58 && e.sent.frame[22..38] == node.ll && e.sent.frame[38..54] == to
    && e.sent.frame[54] == 129 && (|message| > 1 ==> e.sent.frame[55] == message[1])
    && (|message| >= 4 ==> e.sent.frame[58..] == message[4..])
  }

  lemma EchoFields(node: Node, mac: Mac, to: Ip6, buf: seq<byte>, n: nat)
    requires |buf| == 2048 && 0 < n <= 1460
    ensures Icmp(EchoReply(buf, n)).Fits()
    ensures IsEchoReply(node, Frame(Sent(FrameOf(node, mac, to, Icmp(EchoReply(buf, n))), mac, to, Icmp(EchoReply(buf, n)))),
                        mac, to, buf[54..54 + n])
  {
    hide IcmpFrame;
    var data := EchoReply(buf, n);
    IcmpFields(mac, node.mac, node.ll, to, data);
    if n >= 4 { assert data[4..] == buf[54..54 + n][4..]; }
  }

  /** The answer to an ICMPv6 message that was accepted. */
  predicate AnswersIcmp(node: Node, before: View, after: seq<Event>, fromMac: Mac, from: Ip6, hop: byte, message: seq<byte>)
    requires |message| > 0
  {
    var n := |before.trace|;
    var mac := if from[0] == 0xFF then [0x33, 0x33] + from[12..] else fromMac;
    var echo := message[0] == 128 && |message| <= 1460;
    var solicitation := message[0] == 135 && |message| >= 24 && message[1] == 0 && hop == 255 && message[8..24] == node.ll;
    if before.free != [] && (echo || solicitation) then
      && |after| == n + 1 && after[..n] == before.trace
      && if echo then IsEchoReply(node, after[n], mac, from, message) else IsNeighborAdvertisement(node, after[n], mac, from)
    else after == before.trace
  }

  /** An accepted ICMPv6 message leads to its reply, with the sender remembered. */
  lemma IcmpReceived(cfg: Config, v: View, toMac: Mac, fromMac: Mac, flow: seq<byte>, hop: byte, from: Ip6, to: Ip6,
                     message: seq<byte>, padding: seq<byte>, buf: seq<byte>, memory: seq<byte>, txOk: bool)
    requires |flow| == 4 && 0x60 <= flow[0] <= 0x6F && to in [cfg.node.ll, cfg.node.snm, ALL_NODES] && |buf| == 2048
    requires 0 < |message| < 0x1_0000
    requires WireHeader(toMac, fromMac, [0x86, 0xDD], flow, |message|, 58, hop, from, to) + (message + padding) <= buf
    ensures 54 + |message + padding| <= 2048 && buf[54..54 + |message|] == message && buf[21] == hop
    ensures Receive(cfg, v, buf, 54 + |message + padding|, memory, txOk)
         == Respond(cfg.node, v.(remoteMac := fromMac, remoteIp := from), from, IcmpReply(cfg.node, buf, |message|), txOk)
  {
    hide Classify, Respond, IcmpReply;
    var n := |message|;
    AcceptsExactly(cfg.node, toMac, fromMac, [0x86, 0xDD], flow, n, 58, hop, from, to, message + padding, buf);
    WireFields(toMac, fromMac, [0x86, 0xDD], flow, n, 58, hop, from, to, message + padding, buf);
    assert message == (message + padding)[..n] == buf[54..54 + n];
  }

  /** A reply that is due and fits goes out as one frame to the sender. */
  lemma RespondsOnce(node: Node, v: View, to: Ip6, what: What, txOk: bool)
    requires v.remoteIp == to
    ensures var mac := if to[0] == 0xFF then [0x33, 0x33] + to[12..] else v.remoteMac;
      Send(node, v, to, what, txOk).trace ==
        if v.free != [] && what.Fits() then v.trace + [Frame(Sent(FrameOf(node, mac, to, what), mac, to, what))] else v.trace
  {
    hide FrameOf;
    ResolvedMac(v.remoteMac, v.remoteIp, to);
  }

  /** Every ICMPv6 message that reaches the node, its solicited-node address or all
      nodes, with one byte or more: an echo request that fits is echoed, a valid
      solicitation of the node's own address (section 7.1.1 of RFC 4861) is
      answered, anything else is not. */
  lemma IcmpAnswered(cfg: Config, v: View, toMac: Mac, fromMac: Mac, flow: seq<byte>, hop: byte, from: Ip6, to: Ip6,
                     message: seq<byte>, padding: seq<byte>, buf: seq<byte>, memory: seq<byte>, txOk: bool)
    requires |flow| == 4 && 0x60 <= flow[0] <= 0x6F && to in [cfg.node.ll, cfg.node.snm, ALL_NODES] && |buf| == 2048
    requires 0 < |message| < 0x1_0000
    requires WireHeader(toMac, fromMac, [0x86, 0xDD], flow, |message|, 58, hop, from, to) + (message + padding) <= buf
    ensures 54 + |message + padding| <= 2048
    ensures AnswersIcmp(cfg.node, v, Receive(cfg, v, buf, 54 + |message + padding|, memory, txOk).trace, fromMac, from, hop, message)
  {
    hide Receive, WireHeader;
    IcmpReceived(cfg, v, toMac, fromMac, flow, hop, from, to, message, padding, buf, memory, txOk);
    AnswersMessage(cfg.node, v, fromMac, from, hop, message, buf, txOk);
  }

  lemma AnswersMessage(node: Node, v: View, fromMac: Mac, from: Ip6, hop: byte, message: seq<byte>, buf: seq<byte>, txOk: bool)
    requires |buf| == 2048 && 0 < |message| && 54 + |message| <= 2048 && buf[54..54 + |message|] == message && buf[21] == hop
    ensures AnswersIcmp(node, v, Respond(node, v.(remoteMac := fromMac, remoteIp := from), from, IcmpReply(node, buf, |message|), txOk).trace,
                        fromMac, from, hop, message)
  {
    hide FrameOf, Send, EchoReply, NeighborAdvertisement, IsEchoReply, IsNeighborAdvertisement;
    var n := |message|;
    var v1 := v.(remoteMac := fromMac, remoteIp := from);
    var mac := if from[0] == 0xFF then [0x33, 0x33] + from[12..] else fromMac;
    assert buf[54] == message[0] && (n > 1 ==> buf[55] == message[1]);
    if n >= 24 { SubSlice(buf, 54, 54 + n, 8, 24); }
    RespondsOnce(node, v1, from, Icmp(EchoReply(buf, n)), txOk);
    RespondsOnce(node, v1, from, Icmp(NeighborAdvertisement(node)), txOk);
    if n <= 1460 { EchoFields(node, mac, from, buf, n); }
    AdvertisementFields(node, mac, from);
  }

  /** Advertising: whenever one is due and a buffer is free, exactly one goes out,
      otherwise none. */
  lemma AdvertDue(cfg: Config, v: View, env: Env)
    requires Codec(cfg.encode)
    ensures var after := Advertised(cfg, v, env).trace;
      if (!v.advertised || (env.timer && !v.state.stopAdvertising)) && v.free != []
      then |after| == |v.trace| + 1 && after[..|v.trace|] == v.trace && IsNetbootFrame(after[|v.trace|], cfg.encode(Advertisement))
      else after == v.trace
  {
    hide FrameOf, Resolve, ReplyTo, NetbootDatagram, IsNetbootFrame;
    ReplyResolves(v.remoteMac, v.remoteIp);
    NetbootFits(cfg.encode, Advertisement);
    var to := ReplyTo(v.remoteIp);
    NetbootFields(cfg.node, Resolve(v.remoteMac, v.remoteIp, to).value, to, cfg.encode, Advertisement);
  }

  /** A buffer the NIC names by the pointer it was given comes back: its slot heads
      the free list and is at the NIC no longer. */
  lemma BufferComesBack(cfg: Config, v: View, env: Env, slot: nat)
    requires Reachable(cfg.mask, cfg.phys) && slot in Slots(cfg.phys)
    requires env.completed(v.nic.Keys) == Some(slot + 8)
    ensures Recycled(cfg, v, env).free == [slot] + v.free && Recycled(cfg, v, env).nic.Keys == v.nic.Keys - {slot}
    ensures Recycled(cfg, v, env).trace == v.trace && Recycled(cfg, v, env).state == v.state
  {
    hide SlotOf;
    Masking(cfg.mask, cfg.phys, slot, 8);
  }

  /** A poll in which such a datagram arrives, and GetStatus does not fail, handles it. */
  lemma PollHandles(cfg: Config, v: View, env: Env, toMac: Mac, fromMac: Mac, flow: seq<byte>, length: u16, hop: byte, from: Ip6, to: Ip6,
                    data: seq<byte>)
    requires Codec(cfg.encode) && env.WellSized() && env.statusOk && env.received.Some? && env.received.value.len == 54 + |data|
    requires |flow| == 4 && 0x60 <= flow[0] <= 0x6F && length <= |data| && to in [cfg.node.ll, cfg.node.snm, ALL_NODES]
    requires WireHeader(toMac, fromMac, [0x86, 0xDD], flow, length, 17, hop, from, to) + data <= env.received.value.buf
    requires env.received.value.buf[56..58] == [0xE1, 0xB1]
    ensures Handled(Netboot.Delivery(cfg.decode(env.received.value.buf[62..]), env.memory)) in PollStep(cfg, v, env).trace
  {
    hide Receive, HandleNetboot, WireHeader, Recycled, Advertised;
    var v1 := Recycled(cfg, Advertised(cfg, v, env), env);
    var buf := env.received.value.buf;
    DatagramHandled(cfg, v1, toMac, fromMac, flow, length, hop, from, to, data, buf, env.memory, env.replyOk);
    MessageAcknowledged(cfg, v1.(remoteMac := fromMac, remoteIp := from), buf[62..], env.memory, env.replyOk);
  }

  // ------------------------------------------------------------------ how the loop ends

  /** The four commands that end the loop. */
  predicate IsEnd(e: Event) {
    e.Handled? && (e.delivery.msg.FwSetup? || e.delivery.msg.Shutdown? || e.delivery.msg.Reboot? || e.delivery.msg.Boot?)
  }

  /** No message is handled after one that ends the loop. */
  ghost predicate EndsOnce(trace: seq<Event>) {
    forall i, j :: 0 <= i < j < |trace| && IsEnd(trace[i]) ==> !trace[j].Handled?
  }

  lemma {:induction false} DeliveredEvents(trace: seq<Event>)
    ensures forall d :: d in Deliveries(trace) <==> Handled(d) in trace
    decreases |trace|
  {
    if trace != [] {
      var init, e := trace[..|trace| - 1], trace[|trace| - 1];
      assert trace == init + [e];
      DeliveredEvents(init);
    }
  }

  /** The loop goes on exactly while no such message was handled. */
  lemma ContinuesUntilEnd(cfg: Config, v: View)
    requires Settled(cfg, v)
    ensures v.state.pollContinue <==> forall e <- v.trace :: !IsEnd(e)
  {
    hide Ordered, AllSound, Netboot.Run, Deliveries;
    Netboot.FlagsOfRun(Deliveries(v.trace));
    DeliveredEvents(v.trace);
    if v.state.pollContinue {
      forall e <- v.trace ensures !IsEnd(e) {
        if e.Handled? { assert e.delivery in Deliveries(v.trace); }
      }
    } else {
      var d :| d in Deliveries(v.trace) && (d.msg.FwSetup? || d.msg.Shutdown? || d.msg.Reboot? || d.msg.Boot?);
      assert IsEnd(Handled(d)) && Handled(d) in v.trace;
    }
  }

  /** What one poll adds: a frame or none, a message or none, a frame or none. */
  ghost predicate AddsOne(before: seq<Event>, after: seq<Event>) {
    && |before| <= |after| && after[..|before|] == before
    && forall i, j | |before| <= i < j < |after| :: !(after[i].Handled? && after[j].Handled?)
  }

  lemma PollAdds(cfg: Config, v: View, env: Env)
    requires env.WellSized()
    ensures AddsOne(v.trace, PollStep(cfg, v, env).trace)
  {
    hide FrameOf, Resolve, ReplyTo, NetbootDatagram, Netboot.Step, Classify, UdpDispatch, AckReply, IcmpReply, Receive;
    var v1 := Advertised(cfg, v, env);
    assert |v1.trace| <= |v.trace| + 1 && v1.trace[..|v.trace|] == v.trace && forall i | |v.trace| <= i < |v1.trace| :: v1.trace[i].Frame?;
    if env.statusOk && env.received.Some? {
      var r := env.received.value;
      ReceiveAdds(cfg, Recycled(cfg, v1, env), r.buf, r.len, env.memory, env.replyOk);
    }
  }

  lemma ReceiveAdds(cfg: Config, v: View, buf: seq<byte>, len: nat, memory: seq<byte>, txOk: bool)
    requires len <= |buf| == 2048
    ensures AddsOne(v.trace, Receive(cfg, v, buf, len, memory, txOk).trace)
  {
    hide FrameOf, Resolve, ReplyTo, NetbootDatagram, Netboot.Step, Classify, UdpDispatch, AckReply, IcmpReply;
  }

  lemma OnceMore(before: seq<Event>, after: seq<Event>)
    requires AddsOne(before, after) && forall e <- before :: !IsEnd(e)
    ensures EndsOnce(after)
  {
    assert forall i | 0 <= i < |before| :: after[i] == before[i] && before[i] in before;
  }

  /** Over every run of the loop: no message is handled after one that ends it, the
      loop stops before the environment does only for such a message, and when one
      was handled it has stopped. */
  lemma {:induction false} PollsEnd(cfg: Config, v: View, envs: seq<Env>)
    requires Settled(cfg, v) && Codec(cfg.encode) && AllHonest(cfg, envs) && EndsOnce(v.trace)
    ensures EndsOnce(Polls(cfg, v, envs).trace)
    decreases |envs|
  {
    hide Settled, PollStep, EndsOnce, IsEnd, AddsOne;
    if envs != [] && v.state.pollContinue {
      assert envs[0] in envs;
      PollKeeps(cfg, v, envs[0]);
      ContinuesUntilEnd(cfg, v);
      PollAdds(cfg, v, envs[0]);
      OnceMore(v.trace, PollStep(cfg, v, envs[0]).trace);
      PollsEnd(cfg, PollStep(cfg, v, envs[0]), envs[1..]);
    }
  }

  // ------------------------------------------------------------------ who gets the replies

  /** Every frame added to the history goes to this MAC and this address. */
  predicate AllGoTo(before: seq<Event>, after: seq<Event>, mac: Mac, ip: Ip6) {
    before <= after && forall i | |before| <= i < |after| :: after[i].Frame? ==> after[i].sent.toMac == mac && after[i].sent.to == ip
  }

  /** Replies go back to the MAC and IPv6 address of the frame being handled,
      whatever frames came before. A source that is a multicast address gets them
      at its multicast MAC, and netboot replies to the unspecified address go to
      all nodes. */
  lemma RepliesToSender(cfg: Config, v: View, buf: seq<byte>, len: nat, memory: seq<byte>, txOk: bool)
    requires len <= |buf| == 2048 && Classify(cfg.node, buf, len).Accepted?
    ensures var a := Classify(cfg.node, buf, len);
      var to := if a.next == UDP && a.from == [0, 0, 0, 0, 0, 0, 0, 0, 0, 0, 0, 0, 0, 0, 0, 0] then ALL_NODES else a.from;
      AllGoTo(v.trace, Receive(cfg, v, buf, len, memory, txOk).trace, if to[0] == 0xFF then [0x33, 0x33] + to[12..] else a.fromMac, to)
  {
    hide Classify, HandleNetboot, UdpDispatch, IcmpReply, Send, AllGoTo, ReplyTo;
    var a := Classify(cfg.node, buf, len);
    var v1 := v.(remoteMac := a.fromMac, remoteIp := a.from);
    NothingSent(v.trace);
    UnspecifiedReply(a.from);
    AcceptedLength(cfg.node, buf, len);
    if a.next == UDP {
      if UdpDispatch(buf).Some? { NetbootGoesTo(cfg, v1, UdpDispatch(buf).value, memory, txOk); }
    } else if a.next == ICMP6 {
      var reply := IcmpReply(cfg.node, buf, a.length);
      if reply.Some? { SendGoesTo(cfg.node, v1, a.from, reply.value, txOk); }
    }
  }

  lemma AcceptedLength(node: Node, buf: seq<byte>, len: nat)
    requires len <= |buf| == 2048 && Classify(node, buf, len).Accepted?
    ensures 54 + Classify(node, buf, len).length <= len
  {
  }

  lemma NothingSent(trace: seq<Event>)
    ensures forall mac, ip :: AllGoTo(trace, trace, mac, ip)
  {
  }

  lemma UnspecifiedReply(ip: Ip6)
    ensures ReplyTo(ip) == if ip == [0, 0, 0, 0, 0, 0, 0, 0, 0, 0, 0, 0, 0, 0, 0, 0] then ALL_NODES else ip
  {
    hide Unspecified;
    UnspecifiedIsZero(ip);
  }

  /** A frame to the remembered sender, or to a multicast address. */
  lemma SendGoesTo(node: Node, v: View, to: Ip6, what: What, txOk: bool)
    requires to == v.remoteIp || to[0] == 0xFF
    ensures AllGoTo(v.trace, Send(node, v, to, what, txOk).trace, if to[0] == 0xFF then [0x33, 0x33] + to[12..] else v.remoteMac, to)
  {
    hide FrameOf;
    ResolvedMac(v.remoteMac, v.remoteIp, to);
  }

  lemma NetbootGoesTo(cfg: Config, v: View, bytes: seq<byte>, memory: seq<byte>, txOk: bool)
    ensures var to := ReplyTo(v.remoteIp);
      AllGoTo(v.trace, HandleNetboot(cfg, v, bytes, memory, txOk).trace, if to[0] == 0xFF then [0x33, 0x33] + to[12..] else v.remoteMac, to)
  {
    hide Netboot.Step, AckReply, Send, Unspecified;
    var d := Netboot.Delivery(cfg.decode(bytes), memory);
    var after := Netboot.Step(v.state, d.msg, d.pool);
    var reply := AckReply(cfg.encode, v.state, after);
    if reply.Some? {
      SendGoesTo(cfg.node, v.(trace := v.trace + [Handled(d)], state := after), ReplyTo(v.remoteIp), reply.value, txOk);
    }
  }

  // ------------------------------------------------------------------ the files

  /** When the messages handled divide into orderly transfers, the files written
      are exactly those of the complete ones. */
  lemma LoadDelivers(cfg: Config, v: View, before: seq<Netboot.Message>, ts: seq<Transfers.Session>)
    requires Settled(cfg, v)
    requires Transfers.Quieted(Deliveries(v.trace)) == Netboot.Quiet(before) + Transfers.Flatten(ts)
    requires (forall msg <- before :: !msg.FileSendInit?) && Transfers.Orderly(ts)
    ensures v.state.files == Transfers.Delivered(ts)
  {
    hide Netboot.Run, Netboot.Step, Transfers.Orderly, Ordered, AllSound;
    Transfers.HistoryDelivers(Deliveries(v.trace), before, ts);
  }
}
