/** The netboot receiver (net/netboot.c): a state machine driven by messages
    that the network may lose, repeat and reorder. */
module Netboot {
  import opened Words

  datatype FileInfo = FileInfo(size: nat, perPacket: nat, path: string)

  datatype Message =
    | Advertise | StopAdvertising | Shutdown | FwSetup | Reboot
    | FileSendInit(info: FileInfo)
    | Fragment(id: nat, data: seq<byte>)
    | Acknowledge | Boot | Unknown

  datatype Ack = InitAck | FragmentAck(fragment: nat)
  datatype Phase = PreInit | Advertising | CmdWait | FileTransfer
  datatype File = File(path: string, content: seq<byte>)

  /** _netboot_state, the two flags it shares with the poll loop, and what the
      receiver has sent and written so far. */
  datatype State = State(
    phase: Phase, info: Option<FileInfo>, buffer: seq<byte>, bytes: nat, packets: nat,
    pollContinue: bool, stopAdvertising: bool,
    acks: seq<Ack>, files: seq<File>)

  const INITIAL := State(PreInit, None, [], 0, 0, true, false, [], [])

  /** memcpy(&buffer[at], data, len): bytes past the end land behind the buffer. */
  function Overlay(buffer: seq<byte>, at: nat, data: seq<byte>): (r: seq<byte>)
    ensures at <= |buffer| ==> |r| >= at + |data|
  {
    if at > |buffer| then buffer
    else buffer[..at] + data + (if at + |data| <= |buffer| then buffer[at + |data|..] else [])
  }

  function Take(s: seq<byte>, n: nat): seq<byte> { if n <= |s| then s[..n] else s }

  /** The fragment branch of netboot_cmd_receive. */
  function OnFragment(s: State, id: nat, data: seq<byte>): State
    requires s.info.Some?
  {
    var ack := FragmentAck(Min(id, s.packets));
    var s := s.(acks := s.acks + [ack]);
    var s := if id != s.packets then s
             else s.(buffer := Overlay(s.buffer, s.bytes, data), bytes := s.bytes + |data|, packets := s.packets + 1);
    if s.bytes == s.info.value.size then
      s.(files := s.files + [File(s.info.value.path, Take(s.buffer, s.info.value.size))],
         info := None, buffer := [], bytes := 0, packets := 0, phase := CmdWait)
    else s
  }

  /** netboot_cmd_receive. `pool` is what AllocatePool's memory happens to hold. */
  function Step(s: State, msg: Message, pool: seq<byte>): State {
    var s := if s.phase.FileTransfer? && s.info.Some? && msg.Fragment? then OnFragment(s, msg.id, msg.data) else s;
    match msg
    case FwSetup | Shutdown | Reboot | Boot => s.(pollContinue := false)
    case StopAdvertising => s.(stopAdvertising := true)
    case FileSendInit(info) =>
      s.(info := Some(info), phase := FileTransfer, buffer := pool, acks := s.acks + [InitAck])
    case _ => s
  }

  class Receiver {
    var phase: Phase
    var info: Option<FileInfo>
    var buffer: seq<byte>
    var bytes: nat
    var packets: nat
    var pollContinue: bool
    var stopAdvertising: bool
    var acks: seq<Ack>
    var files: seq<File>

    function View(): State
      reads this
    {
      State(phase, info, buffer, bytes, packets, pollContinue, stopAdvertising, acks, files)
    }

    constructor ()
      ensures View() == INITIAL
    {
      phase, info, buffer, bytes, packets := PreInit, None, [], 0, 0;
      pollContinue, stopAdvertising, acks, files := true, false, [], [];
    }

    /** netboot_cmd_receive */
    method Receive(msg: Message, pool: seq<byte>)
      modifies this
      ensures View() == Step(old(View()), msg, pool)
    {
      if phase.FileTransfer? && info.Some? && msg.Fragment? {
        var ack := 0;
        if msg.id != packets {
          ack := if msg.id < packets then msg.id else packets;
        } else {
          buffer := Overlay(buffer, bytes, msg.data);
          ack := packets;
          bytes := bytes + |msg.data|;
          packets := packets + 1;
        }
        acks := acks + [FragmentAck(ack)];
        if bytes == info.value.size {
          files := files + [File(info.value.path, Take(buffer, info.value.size))];
          info, buffer, bytes, packets := None, [], 0, 0;
          phase := CmdWait;
        }
      }
      if msg.FwSetup? || msg.Shutdown? || msg.Reboot? {
        pollContinue := false;
      } else if msg.StopAdvertising? {
        stopAdvertising := true;
      } else if msg.FileSendInit? {
        info := Some(msg.info);
        phase := FileTransfer;
        buffer := pool;
        acks := acks + [InitAck];
      } else if msg.Boot? {
        pollContinue := false;
      }
    }
  }

  // ------------------------------------------------------------------ every run

  datatype Delivery = Delivery(msg: Message, pool: seq<byte>)

  function Run(s: State, run: seq<Delivery>): State {
    if run == [] then s else Step(Run(s, run[..|run| - 1]), run[|run| - 1].msg, run[|run| - 1].pool)
  }

  /** Outside a transfer nothing of the last one is left; inside, there is a file. */
  predicate Consistent(s: State) {
    if s.phase.FileTransfer? then s.info.Some? else s.info.None? && s.bytes == 0 && s.packets == 0
  }

  /** Whatever arrives, forged or genuine. */
  lemma {:induction false} AlwaysConsistent(s: State, run: seq<Delivery>)
    requires Consistent(s)
    ensures Consistent(Run(s, run))
    decreases |run|
  {
    if run != [] { AlwaysConsistent(s, run[..|run| - 1]); }
  }

  /** The poll loop goes on exactly until one of the four commands that end it was
      handled, and advertising until the one that stops it. */
  lemma {:induction false} FlagsOfRun(run: seq<Delivery>)
    ensures Run(INITIAL, run).pollContinue <==>
      forall d <- run :: !d.msg.FwSetup? && !d.msg.Shutdown? && !d.msg.Reboot? && !d.msg.Boot?
    ensures Run(INITIAL, run).stopAdvertising <==> exists d <- run :: d.msg.StopAdvertising?
    decreases |run|
  {
    if run != [] {
      hide OnFragment, Run;
      var init, d := run[..|run| - 1], run[|run| - 1];
      assert run == init + [d];
      FlagsOfRun(init);
      LastDelivery(init, d);
      FlagsOfStep(Run(INITIAL, init), d.msg, d.pool);
      assert d in run && forall e <- init :: e in run;
      assert forall e <- run :: e in init || e == d;
    }
  }

  lemma LastDelivery(init: seq<Delivery>, d: Delivery)
    ensures Run(INITIAL, init + [d]) == Step(Run(INITIAL, init), d.msg, d.pool)
  {
    hide Step;
    assert (init + [d])[..|init|] == init;
  }

  lemma FlagsOfStep(s: State, msg: Message, pool: seq<byte>)
    ensures Step(s, msg, pool).pollContinue <==>
      s.pollContinue && !msg.FwSetup? && !msg.Shutdown? && !msg.Reboot? && !msg.Boot?
    ensures Step(s, msg, pool).stopAdvertising <==> s.stopAdvertising || msg.StopAdvertising?
  {
  }

  /** What one message does to the acknowledgements: an announcement is
      acknowledged, a fragment during a transfer with the smaller of its number and
      the count stored, and nothing else. */
  lemma AckOfStep(s: State, msg: Message, pool: seq<byte>)
    ensures Step(s, msg, pool).acks == s.acks
      + (if msg.FileSendInit? then [InitAck]
         else if msg.Fragment? && s.phase.FileTransfer? && s.info.Some? then [FragmentAck(if msg.id < s.packets then msg.id else s.packets)]
         else [])
  {
  }

  // ------------------------------------------------------------------ one transfer

  function Count(info: FileInfo): nat
    requires info.perPacket > 0
  {
    (info.size + info.perPacket - 1) / info.perPacket
  }

  /** Where fragment id starts in the file. */
  function Offset(info: FileInfo, id: nat): nat { Min(id * info.perPacket, info.size) }

  predicate Announces(info: FileInfo, content: seq<byte>) {
    info.perPacket > 0 && info.size == |content| > 0
  }

  function Piece(info: FileInfo, content: seq<byte>, id: nat): seq<byte>
    requires Announces(info, content)
  {
    OffsetStep(info, id);
    content[Offset(info, id)..Offset(info, id + 1)]
  }

  lemma OffsetStep(info: FileInfo, id: nat)
    requires info.perPacket > 0
    ensures id * info.perPacket + info.perPacket == (id + 1) * info.perPacket
    ensures Offset(info, id) <= Offset(info, id + 1) <= info.size
    ensures Offset(info, id) == info.size <==> id >= Count(info)
  {
    var p, n := info.perPacket, Count(info);
    var r := (info.size + p - 1) % p;
    assert info.size + p - 1 == p * n + r;
    if id >= n { MulMonotone(p, n, id); } else { MulMonotone(p, id + 1, n); }
  }

  /** A message the server may send during the transfer: other commands, or
      fragments of the announced file from number `first` on; earlier numbers
      carry whatever they like. */
  predicate Genuine(info: FileInfo, content: seq<byte>, first: nat, msg: Message)
    requires Announces(info, content)
  {
    && !msg.FileSendInit?
    && (msg.Fragment? ==> msg.id < Count(info) && (msg.id >= first ==> msg.data == Piece(info, content, msg.id)))
  }

  predicate AllGenuine(info: FileInfo, content: seq<byte>, first: nat, msgs: seq<Message>)
    requires Announces(info, content)
  {
    forall msg <- msgs :: Genuine(info, content, first, msg)
  }

  /** Mid-transfer: k fragments stored, and the buffer starts with that much of the file. */
  predicate Transferring(s: State, info: FileInfo, content: seq<byte>, k: nat)
    requires Announces(info, content)
  {
    && s.phase.FileTransfer? && s.info == Some(info)
    && s.packets == k < Count(info) && s.bytes == Offset(info, k) < info.size
    && |s.buffer| == info.size && s.buffer[..s.bytes] == content[..s.bytes]
  }

  /** How far a receiver that started at k gets with these fragment numbers. */
  function Progress(k: nat, n: nat, msgs: seq<Message>): (r: nat)
    ensures k <= r && (k <= n ==> r <= n)
  {
    if msgs == [] then k
    else
      var r := Progress(k, n, msgs[..|msgs| - 1]);
      var msg := msgs[|msgs| - 1];
      if msg.Fragment? && r < n && msg.id == r then r + 1 else r
  }

  function Quiet(msgs: seq<Message>): seq<Delivery> { seq(|msgs|, i requires 0 <= i < |msgs| => Delivery(msgs[i], [])) }

  /** The acknowledgements due: one per fragment until the transfer ends, each
      the smaller of its number and the count stored before it. */
  function AcksDue(k: nat, n: nat, msgs: seq<Message>): seq<Ack> {
    if msgs == [] then []
    else
      var init, msg := msgs[..|msgs| - 1], msgs[|msgs| - 1];
      var before := Progress(k, n, init);
      AcksDue(k, n, init) + if msg.Fragment? && before < n then [FragmentAck(Min(msg.id, before))] else []
  }

  /** The state after some of the transfer's messages. */
  predicate After(s: State, s0: State, info: FileInfo, content: seq<byte>, k: nat, msgs: seq<Message>)
    requires Announces(info, content)
  {
    var r := Progress(k, Count(info), msgs);
    && s.acks == s0.acks + AcksDue(k, Count(info), msgs)
    && if r < Count(info) then Transferring(s, info, content, r) && s.files == s0.files
       else s.phase.CmdWait? && Consistent(s) && s.files == s0.files + [File(info.path, content)]
  }

  /** One accepted fragment. */
  lemma Accept(s: State, info: FileInfo, content: seq<byte>, k: nat)
    requires Announces(info, content) && Transferring(s, info, content, k)
    ensures var s' := OnFragment(s, k, Piece(info, content, k));
      && s'.acks == s.acks + [FragmentAck(k)]
      && if k + 1 < Count(info) then Transferring(s', info, content, k + 1) && s'.files == s.files
         else s'.phase.CmdWait? && Consistent(s') && s'.files == s.files + [File(info.path, content)]
  {
    OffsetStep(info, k);
    OffsetStep(info, k + 1);
    var data := Piece(info, content, k);
    var b := Overlay(s.buffer, s.bytes, data);
    var e := s.bytes + |data|;
    assert e == Offset(info, k + 1);
    assert b[..e] == content[..e];
    assert |b| == info.size;
    if e == info.size { assert Take(b, info.size) == content; }
  }

  /** Progress and acknowledgements after one more message. */
  lemma Extend(k: nat, n: nat, init: seq<Message>, msg: Message)
    ensures var r := Progress(k, n, init);
      && Progress(k, n, init + [msg]) == (if msg.Fragment? && r < n && msg.id == r then r + 1 else r)
      && AcksDue(k, n, init + [msg]) ==
         AcksDue(k, n, init) + if msg.Fragment? && r < n then [FragmentAck(Min(msg.id, r))] else []
  {
    assert (init + [msg])[..|init|] == init;
  }

  /** A fragment out of turn changes nothing but the acknowledgements. */
  lemma Refuse(s: State, info: FileInfo, content: seq<byte>, k: nat, id: nat, data: seq<byte>)
    requires Announces(info, content) && Transferring(s, info, content, k) && id != k
    ensures OnFragment(s, id, data) == s.(acks := s.acks + [FragmentAck(Min(id, k))])
  {
  }

  /** Commands and, outside a transfer, late fragments leave the transfer alone. */
  lemma OtherMessage(s: State, msg: Message)
    requires !msg.FileSendInit? && (msg.Fragment? ==> !s.phase.FileTransfer?)
    ensures var s' := Step(s, msg, []);
      s' == s.(pollContinue := s'.pollContinue, stopAdvertising := s'.stopAdvertising)
  {
  }

  lemma OneMessage(s: State, s0: State, info: FileInfo, content: seq<byte>, k: nat, init: seq<Message>, msg: Message)
    requires Announces(info, content) && After(s, s0, info, content, k, init) && Genuine(info, content, k, msg)
    ensures After(Step(s, msg, []), s0, info, content, k, init + [msg])
  {
    hide OnFragment, Piece, Progress, AcksDue, Offset, Count;
    Extend(k, Count(info), init, msg);
    var r := Progress(k, Count(info), init);
    if msg.Fragment? && r < Count(info) {
      assert Step(s, msg, []) == OnFragment(s, msg.id, msg.data);
      if msg.id == r { Accept(s, info, content, r); } else { Refuse(s, info, content, r, msg.id, msg.data); }
    } else {
      OtherMessage(s, msg);
    }
  }

  /** Safety over the whole transfer, at every point of every delivery order. */
  lemma {:induction false} TransferRun(s: State, info: FileInfo, content: seq<byte>, k: nat, msgs: seq<Message>)
    requires Announces(info, content) && Transferring(s, info, content, k) && AllGenuine(info, content, k, msgs)
    ensures After(Run(s, Quiet(msgs)), s, info, content, k, msgs)
    decreases |msgs|
  {
    hide Transferring, Step, Genuine, OnFragment;
    if msgs == [] {
      InTransfer(s, info, content, k);
    } else {
      var init, msg := msgs[..|msgs| - 1], msgs[|msgs| - 1];
      assert msgs == init + [msg];
      assert Quiet(msgs)[..|msgs| - 1] == Quiet(init);
      TransferRun(s, info, content, k, init);
      OneMessage(Run(s, Quiet(init)), s, info, content, k, init, msg);
    }
  }

  lemma InTransfer(s: State, info: FileInfo, content: seq<byte>, k: nat)
    requires Announces(info, content) && Transferring(s, info, content, k)
    ensures k < Count(info)
  {
  }
}
