/** What the receiver guarantees over whole runs of transfers. */
module Transfers {
  import opened Words
  import opened Netboot

  // ------------------------------------------------------------------ sessions

  /** One announced file and everything that arrives before the next announcement. */
  datatype Session = Session(info: FileInfo, content: seq<byte>, pool: seq<byte>, msgs: seq<Message>) {
    predicate Valid() {
      Announces(info, content) && |pool| == info.size && AllGenuine(info, content, 0, msgs)
    }
    function Stored(): nat { if info.perPacket > 0 then Progress(0, Count(info), msgs) else 0 }
    predicate Complete() { info.perPacket > 0 && Stored() == Count(info) }
  }

  function RunSession(s: State, t: Session): State {
    Run(Step(s, FileSendInit(t.info), t.pool), Quiet(t.msgs))
  }

  function RunSessions(s: State, ts: seq<Session>): State {
    if ts == [] then s else RunSession(RunSessions(s, ts[..|ts| - 1]), ts[|ts| - 1])
  }

  /** The environment: genuine fragments, and no announcement after a fragment
      was accepted until the transfer is complete. */
  predicate Orderly(ts: seq<Session>) {
    && (forall t <- ts :: t.Valid())
    && (forall i :: 0 <= i < |ts| - 1 ==> ts[i].Stored() == 0 || ts[i].Complete())
  }

  /** The files a run should leave behind: each complete transfer's, once. */
  function Delivered(ts: seq<Session>): seq<File> {
    if ts == [] then []
    else
      var t := ts[|ts| - 1];
      Delivered(ts[..|ts| - 1]) + if t.Complete() then [File(t.info.path, t.content)] else []
  }

  predicate Idle(s: State) { s.bytes == 0 && s.packets == 0 }

  lemma Announced(s: State, t: Session)
    requires Idle(s) && t.Valid()
    ensures var s' := Step(s, FileSendInit(t.info), t.pool);
      Transferring(s', t.info, t.content, 0) && s'.files == s.files && s'.acks == s.acks + [InitAck]
  {
    OffsetStep(t.info, 0);
  }

  lemma SessionRun(s: State, t: Session)
    requires Idle(s) && t.Valid()
    ensures var s' := RunSession(s, t);
      && s'.files == s.files + (if t.Complete() then [File(t.info.path, t.content)] else [])
      && (t.Stored() == 0 || t.Complete() ==> Idle(s'))
  {
    hide Step, OnFragment;
    Announced(s, t);
    TransferRun(Step(s, FileSendInit(t.info), t.pool), t.info, t.content, 0, t.msgs);
    OffsetStep(t.info, 0);
  }

  /** Every file written is byte for byte the announced one, exactly once per
      completed transfer, whatever was lost, repeated or reordered. */
  lemma {:induction false} FilesDelivered(s: State, ts: seq<Session>)
    requires Idle(s) && Orderly(ts)
    ensures RunSessions(s, ts).files == s.files + Delivered(ts)
    ensures ts == [] || ts[|ts| - 1].Stored() == 0 || ts[|ts| - 1].Complete() ==> Idle(RunSessions(s, ts))
    decreases |ts|
  {
    hide RunSession;
    if ts != [] {
      var init, t := ts[..|ts| - 1], ts[|ts| - 1];
      assert t in ts && forall u <- init :: u in ts;
      FilesDelivered(s, init);
      SessionRun(RunSessions(s, init), t);
    }
  }

  // ------------------------------------------------------------------ progress

  /** The fragment numbers 0..k-1 occur in this order among the messages. */
  ghost predicate Occurs(k: nat, msgs: seq<Message>) {
    exists at: seq<nat> :: Embeds(at, k, msgs)
  }

  ghost predicate Embeds(at: seq<nat>, k: nat, msgs: seq<Message>) {
    && |at| == k
    && (forall i :: 0 <= i < k ==> at[i] < |msgs| && msgs[at[i]].Fragment? && msgs[at[i]].id == i)
    && (forall i, j :: 0 <= i < j < k ==> at[i] < at[j])
  }

  lemma {:induction false} ProgressOccurs(n: nat, msgs: seq<Message>) returns (at: seq<nat>)
    ensures Embeds(at, Progress(0, n, msgs), msgs)
    decreases |msgs|
  {
    if msgs == [] {
      at := [];
    } else {
      var init := msgs[..|msgs| - 1];
      at := ProgressOccurs(n, init);
      if Progress(0, n, msgs) > Progress(0, n, init) { at := at + [|msgs| - 1]; }
    }
  }

  lemma {:induction false} ProgressMonotone(n: nat, msgs: seq<Message>, i: nat)
    requires i <= |msgs|
    ensures Progress(0, n, msgs[..i]) <= Progress(0, n, msgs)
    decreases |msgs|
  {
    if i < |msgs| {
      ProgressMonotone(n, msgs[..|msgs| - 1], i);
      assert msgs[..|msgs| - 1][..i] == msgs[..i];
    } else {
      assert msgs[..i] == msgs;
    }
  }

  /** After the message that carries number i in an embedding, i+1 fragments are in. */
  lemma {:induction false} EmbeddedProgress(at: seq<nat>, k: nat, n: nat, msgs: seq<Message>, i: nat)
    requires Embeds(at, k, msgs) && i < k <= n
    ensures Progress(0, n, msgs[..at[i] + 1]) >= i + 1
    decreases i
  {
    var pre := msgs[..at[i]];
    assert msgs[..at[i] + 1] == pre + [msgs[at[i]]];
    Extend(0, n, pre, msgs[at[i]]);
    if i > 0 {
      EmbeddedProgress(at, k, n, msgs, i - 1);
      ProgressMonotone(n, pre, at[i - 1] + 1);
      assert pre[..at[i - 1] + 1] == msgs[..at[i - 1] + 1];
    }
  }

  /** file_packets_transferred is the largest k, up to the fragment count, whose
      numbers 0..k-1 arrived in order as a subsequence. */
  lemma ProgressIsLongest(n: nat, msgs: seq<Message>)
    ensures Occurs(Progress(0, n, msgs), msgs)
    ensures forall k: nat :: k <= n && Occurs(k, msgs) ==> k <= Progress(0, n, msgs)
  {
    var at := ProgressOccurs(n, msgs);
    forall k: nat | k <= n && Occurs(k, msgs) ensures k <= Progress(0, n, msgs) {
      if k > 0 {
        var at :| Embeds(at, k, msgs);
        EmbeddedProgress(at, k, n, msgs, k - 1);
        ProgressMonotone(n, msgs, at[k - 1] + 1);
      }
    }
  }

  /** Nothing is acknowledged beyond what is stored. */
  lemma {:induction false} AcksAreStored(n: nat, msgs: seq<Message>)
    ensures forall a <- AcksDue(0, n, msgs) :: a.FragmentAck? && a.fragment <= Progress(0, n, msgs)
    decreases |msgs|
  {
    if msgs != [] {
      AcksAreStored(n, msgs[..|msgs| - 1]);
      ProgressMonotone(n, msgs, |msgs| - 1);
    }
  }

  /** At any point of a transfer: the count and the bytes are those of the
      longest in-order prefix, every fragment below an acknowledged number is in
      the buffer, and nothing has been written outside it. */
  lemma TransferState(s: State, t: Session)
    requires Idle(s) && t.Valid() && !t.Complete()
    ensures var s' := RunSession(s, t);
      && s'.phase.FileTransfer? && s'.info == Some(t.info) && |s'.buffer| == t.info.size && s'.files == s.files
      && s'.packets == t.Stored() && s'.bytes == Offset(t.info, t.Stored()) < t.info.size
      && s'.buffer[..s'.bytes] == t.content[..s'.bytes]
      && s'.acks == s.acks + [InitAck] + AcksDue(0, Count(t.info), t.msgs)
      && (forall a <- AcksDue(0, Count(t.info), t.msgs) :: a.FragmentAck? && a.fragment <= s'.packets)
  {
    hide Step, OnFragment;
    Announced(s, t);
    TransferRun(Step(s, FileSendInit(t.info), t.pool), t.info, t.content, 0, t.msgs);
    AcksAreStored(Count(t.info), t.msgs);
  }

  // ------------------------------------------------------------------ announcements repeated too late

  /** What a repeated announcement does after k fragments: the new buffer is not
      filled again, so its first bytes are whatever the pool held. */
  lemma Reannounced(s: State, info: FileInfo, content: seq<byte>, k: nat, pool: seq<byte>, msgs: seq<Message>)
    requires Announces(info, content) && Transferring(s, info, content, k)
    requires |pool| == info.size && AllGenuine(info, content, k, msgs) && Progress(k, Count(info), msgs) == Count(info)
    ensures var b := Offset(info, k);
      var written := pool[..b] + content[b..];
      && Run(Step(s, FileSendInit(info), pool), Quiet(msgs)).files == s.files + [File(info.path, written)]
      && (written == content <==> pool[..b] == content[..b])
  {
    hide OnFragment;
    var b := Offset(info, k);
    var written := pool[..b] + content[b..];
    var s' := Step(s, FileSendInit(info), pool);
    assert s'.buffer[..b] == written[..b];
    forall msg <- msgs ensures Genuine(info, written, k, msg) {
      assert Genuine(info, content, k, msg);
      if msg.Fragment? && msg.id >= k { SamePiece(info, content, written, k, msg.id); }
    }
    TransferRun(s', info, written, k, msgs);
    assert written[..b] == pool[..b] && content == content[..b] + content[b..];
  }

  /** One such run: the file 1 2 in packets of one byte, announced again after the
      first, is written as 0 2. */
  lemma ReannouncedExample()
    ensures var init := Delivery(FileSendInit(FileInfo(2, 1, "kernel")), [0, 0]);
      Run(INITIAL, [init, Delivery(Fragment(0, [1]), []), init, Delivery(Fragment(1, [2]), [])]).files == [File("kernel", [0, 2])]
  {
    var info := FileInfo(2, 1, "kernel");
    var init, f0, f1 := Delivery(FileSendInit(info), [0, 0]), Delivery(Fragment(0, [1]), []), Delivery(Fragment(1, [2]), []);
    var run := [init, f0, init, f1];
    assert run[..3] == [init, f0, init] && run[..3][..2] == [init, f0] && [init, f0][..1] == [init] && [init][..0] == [];
    var s1 := Step(INITIAL, init.msg, init.pool);
    assert Run(INITIAL, [init]) == s1;
    var s2 := Step(s1, f0.msg, f0.pool);
    assert Run(INITIAL, [init, f0]) == s2 && s2.bytes == 1 && s2.packets == 1;
    var s3 := Step(s2, init.msg, init.pool);
    assert Run(INITIAL, [init, f0, init]) == s3 && s3.buffer == [0, 0];
    assert Overlay([0, 0], 1, [2]) == [0, 2] && Take([0, 2], 2) == [0, 2];
  }

  lemma SamePiece(info: FileInfo, content: seq<byte>, written: seq<byte>, k: nat, id: nat)
    requires Announces(info, content) && |written| == |content| && id >= k
    requires written[Offset(info, k)..] == content[Offset(info, k)..]
    ensures Piece(info, written, id) == Piece(info, content, id)
  {
    OffsetStep(info, id);
    MulMonotone(info.perPacket, k, id);
    var b, i, j := Offset(info, k), Offset(info, id), Offset(info, id + 1);
    assert written[i..j] == written[b..][i - b..j - b];
    assert content[i..j] == content[b..][i - b..j - b];
  }

  // ------------------------------------------------------------------ empty files

  function FirstFragment(msgs: seq<Message>): (first: Option<Message>)
    ensures first.Some? ==> first.value.Fragment?
  {
    if msgs == [] then None
    else
      var first := FirstFragment(msgs[..|msgs| - 1]);
      if first.None? && msgs[|msgs| - 1].Fragment? then Some(msgs[|msgs| - 1]) else first
  }

  /** Where the transfer of an empty file stands: still waiting, spoilt by bytes
      that were never announced, or written. */
  predicate EmptyAfter(s: State, files: seq<File>, info: FileInfo, msgs: seq<Message>) {
    match FirstFragment(msgs)
    case None => s.phase.FileTransfer? && s.info == Some(info) && Idle(s) && s.files == files
    case Some(first) =>
      if first.id == 0 && first.data != []
      then s.phase.FileTransfer? && s.info == Some(info) && s.bytes > 0 && s.files == files
      else s.phase.CmdWait? && s.files == files + [File(info.path, [])]
  }

  lemma EmptyStep(s: State, files: seq<File>, info: FileInfo, init: seq<Message>, msg: Message)
    requires info.size == 0 && EmptyAfter(s, files, info, init) && !msg.FileSendInit?
    ensures EmptyAfter(Step(s, msg, []), files, info, init + [msg])
  {
    assert (init + [msg])[..|init|] == init;
  }

  /** An empty file has no fragments. Over every run of messages up to the next
      announcement it is written, once, exactly when some fragment arrives and the
      first one is not number 0 with data; without a fragment it never is. */
  lemma {:induction false} EmptyFile(s: State, info: FileInfo, pool: seq<byte>, msgs: seq<Message>)
    requires Idle(s) && info.size == 0 && forall msg <- msgs :: !msg.FileSendInit?
    ensures var s' := Run(Step(s, FileSendInit(info), pool), Quiet(msgs));
      var first := FirstFragment(msgs);
      && s'.files == s.files + (if first.Some? && !(first.value.id == 0 && first.value.data != []) then [File(info.path, [])] else [])
      && EmptyAfter(s', s.files, info, msgs)
    decreases |msgs|
  {
    if msgs != [] {
      hide Step;
      var init, msg := msgs[..|msgs| - 1], msgs[|msgs| - 1];
      assert msgs == init + [msg];
      assert Quiet(msgs)[..|msgs| - 1] == Quiet(init);
      EmptyFile(s, info, pool, init);
      EmptyStep(Run(Step(s, FileSendInit(info), pool), Quiet(init)), s.files, info, init, msg);
    }
  }

  // ------------------------------------------------------------------ whole histories

  /** The same deliveries, with the pool's contents kept only where an
      announcement makes use of them. */
  function Quieted(ds: seq<Delivery>): seq<Delivery> {
    seq(|ds|, i requires 0 <= i < |ds| => if ds[i].msg.FileSendInit? then ds[i] else Delivery(ds[i].msg, []))
  }

  lemma {:induction false} QuietedRun(s: State, ds: seq<Delivery>)
    ensures Run(s, Quieted(ds)) == Run(s, ds)
    decreases |ds|
  {
    if ds != [] {
      hide Step;
      var init, d := ds[..|ds| - 1], ds[|ds| - 1];
      assert Quieted(ds)[..|ds| - 1] == Quieted(init);
      QuietedRun(s, init);
      if !d.msg.FileSendInit? { PoolUnused(Run(s, init), d.msg, d.pool); }
    }
  }

  lemma PoolUnused(s: State, msg: Message, pool: seq<byte>)
    requires !msg.FileSendInit?
    ensures Step(s, msg, pool) == Step(s, msg, [])
  {
    hide OnFragment;
  }

  lemma {:induction false} RunConcat(s: State, a: seq<Delivery>, b: seq<Delivery>)
    ensures Run(s, a + b) == Run(Run(s, a), b)
    decreases |b|
  {
    if b == [] {
      assert a + b == a;
    } else {
      hide Step;
      assert (a + b)[..|a + b| - 1] == a + b[..|b| - 1];
      RunConcat(s, a, b[..|b| - 1]);
    }
  }

  /** A run of sessions as one history of deliveries. */
  function Flatten(ts: seq<Session>): seq<Delivery> {
    if ts == [] then []
    else
      var t := ts[|ts| - 1];
      Flatten(ts[..|ts| - 1]) + ([Delivery(FileSendInit(t.info), t.pool)] + Quiet(t.msgs))
  }

  lemma {:induction false} FlattenRun(s: State, ts: seq<Session>)
    ensures Run(s, Flatten(ts)) == RunSessions(s, ts)
    decreases |ts|
  {
    if ts != [] {
      hide Step;
      var init, t := ts[..|ts| - 1], ts[|ts| - 1];
      var first := [Delivery(FileSendInit(t.info), t.pool)];
      FlattenRun(s, init);
      RunConcat(s, Flatten(init), first + Quiet(t.msgs));
      RunConcat(RunSessions(s, init), first, Quiet(t.msgs));
      assert first[..0] == [];
    }
  }

  lemma {:induction false} Waiting(msgs: seq<Message>)
    requires forall msg <- msgs :: !msg.FileSendInit?
    ensures var s := Run(INITIAL, Quiet(msgs)); s.phase.PreInit? && Idle(s) && s.files == []
    decreases |msgs|
  {
    if msgs != [] {
      hide OnFragment;
      assert Quiet(msgs)[..|msgs| - 1] == Quiet(msgs[..|msgs| - 1]);
      Waiting(msgs[..|msgs| - 1]);
    }
  }

  /** Whatever history the receiver has seen since it started: if it divides into
      messages before any announcement and orderly sessions, the files written are
      exactly those of the complete transfers. */
  lemma HistoryDelivers(ds: seq<Delivery>, before: seq<Message>, ts: seq<Session>)
    requires Quieted(ds) == Quiet(before) + Flatten(ts)
    requires (forall msg <- before :: !msg.FileSendInit?) && Orderly(ts)
    ensures Run(INITIAL, ds).files == Delivered(ts)
  {
    hide Step, Run, RunSessions, Orderly;
    QuietedRun(INITIAL, ds);
    RunConcat(INITIAL, Quiet(before), Flatten(ts));
    Waiting(before);
    FlattenRun(Run(INITIAL, Quiet(before)), ts);
    FilesDelivered(Run(INITIAL, Quiet(before)), ts);
  }
}
