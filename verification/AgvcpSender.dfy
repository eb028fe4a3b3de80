/** From the AGV to the controller: over every run with fewer than 2^32 completed sends, the sequence
    number counts them, an acknowledgement that ends a send answers it, and an action is dispatched
    behind its own acknowledged confirmation.
  */
module AgvcpSender {
  import opened Arithmetic
  import opened LibMem
  import opened OsKernel
  import opened AgvcpFrame
  import opened Agvcp
  import opened AgvcpProtocol
  import opened AgvcpAnswers
  import opened AgvcpDelivery

  /** A frame that was transmitted: of a completed send, of the send in progress, or of one given up at
      the current sequence number. */
  ghost predicate Attempt(w: World, f: Frame) {
    f.seqno < |w.sent| ||
    (f.seqno == |w.sent| && (f in w.failed || (w.mutex.Sending? && f == w.mutex.frame)))
  }

  ghost predicate AttemptsOk(w: World) {
    && (forall f :: f in w.back && IsAgvType(f.mtype) ==> Attempt(w, f))
    && (forall f :: f in w.got ==> Attempt(w, f) && IsAgvType(f.mtype))
    && (w.mutex.Sending? ==> w.mutex.frame.seqno == |w.sent|)
  }

  /** The controller got a frame of the same type and number, and unless that was an earlier attempt
      that had been given up, it got this very frame. */
  ghost predicate Answered(w: World, s: Sent) {
    && (s.heard == None <==> s.frame.mtype == HEARTBEAT)
    && (s.heard.Some? ==>
          && s.heard.value < |w.got|
          && w.got[s.heard.value].mtype == s.frame.mtype && w.got[s.heard.value].seqno == s.frame.seqno
          && (w.got[s.heard.value] == s.frame || w.got[s.heard.value] in w.failed))
  }

  ghost predicate HistoryOk(w: World) {
    && (forall k :: 0 <= k < |w.sent| ==> w.sent[k].frame.seqno == k && Answered(w, w.sent[k]))
    && (forall f :: f in w.failed ==> f.mtype != CONFIRM)
  }

  /** Payloads of the completed confirmations. */
  function ConfirmedPayloads(sent: seq<Sent>): seq<seq<byte>> {
    if sent == [] then []
    else
      var last := sent[|sent| - 1].frame;
      ConfirmedPayloads(sent[..|sent| - 1]) + if last.mtype == CONFIRM then [last.data] else []
  }

  lemma {:induction false} PayloadsAppend(sent: seq<Sent>, s: Sent)
    ensures ConfirmedPayloads(sent + [s]) ==
            ConfirmedPayloads(sent) + if s.frame.mtype == CONFIRM then [s.frame.data] else []
  {
    assert (sent + [s])[..|sent|] == sent;
  }

  /** The k-th payload confirms the k-th block. */
  ghost predicate ConfirmEach(agvid: word, payloads: seq<seq<byte>>, blocks: seq<Frame>) {
    |payloads| == |blocks| && forall k :: 0 <= k < |blocks| ==> Confirms(agvid, payloads[k], blocks[k])
  }

  /** Blocks whose confirmation has been acknowledged. */
  function ConfirmedBlocks(w: World): seq<Frame> {
    w.dispatched + if w.task.Confirmed? then [w.task.block] else []
  }

  ghost predicate TxInv(env: Env, w: World) {
    && w.txseq == |w.sent| && AttemptsOk(w) && HistoryOk(w)
    && ConfirmEach(env.agvid, ConfirmedPayloads(w.sent), ConfirmedBlocks(w))
  }

  // ------------------------------------------------ the steps

  /** Steps that leave the sender and its history alone, and of what travels back keep or lose frames or
      add replies. */
  lemma ApartFromSending(env: Env, w: World, w1: World)
    requires TxInv(env, w)
    requires w1.txseq == w.txseq && w1.sent == w.sent && w1.failed == w.failed && w1.got == w.got
    requires w1.dispatched == w.dispatched && w1.task.Confirmed? == w.task.Confirmed?
    requires w.task.Confirmed? ==> w1.task == w.task
    requires w1.mutex == w.mutex || (!w.mutex.Sending? && !w1.mutex.Sending?)
    requires forall f :: f in w1.back && IsAgvType(f.mtype) ==> f in w.back
    ensures TxInv(env, w1)
  {
  }

  lemma HearKeepsTx(env: Env, w: World)
    requires TxInv(env, w) && w.back != []
    ensures TxInv(env, Hear(env, w))
  {
    var w1 := Hear(env, w);
    forall f | f in w1.got ensures Attempt(w1, f) && IsAgvType(f.mtype) {
      assert f in w.got || f == w.back[0];
    }
    StillAnswered(w, w1);
  }

  /** Completed sends stay answered. */
  lemma StillAnswered(w: World, w1: World)
    requires HistoryOk(w) && w.got <= w1.got && w.sent <= w1.sent
    requires forall f :: f in w.failed ==> f in w1.failed
    ensures forall k :: 0 <= k < |w.sent| ==> w1.sent[k].frame.seqno == k && Answered(w1, w1.sent[k])
  {
    forall k | 0 <= k < |w.sent| ensures w1.sent[k].frame.seqno == k && Answered(w1, w1.sent[k]) {
      assert Answered(w, w.sent[k]);
    }
  }

  /** A heartbeat is complete once it is transmitted. */
  lemma HeartbeatKeepsTx(env: Env, w: World, f: Frame)
    requires TxInv(env, w) && !w.mutex.Sending? && f.seqno == w.txseq && f.mtype == HEARTBEAT
    requires |w.sent| + 1 < WORD
    ensures TxInv(env, Begin(w, ProtocolTask, f, 1))
  {
    var w1 := Begin(w, ProtocolTask, f, 1);
    forall g | g in w1.back && IsAgvType(g.mtype) ensures Attempt(w1, g) {
      assert g in w.back || g == f;
    }
    PayloadsAppend(w.sent, Sent(f, None));
    StillAnswered(w, w1);
    assert ConfirmedBlocks(w1) == ConfirmedBlocks(w);
  }

  /** Any other message is in flight from then on. */
  lemma OpeningKeepsTx(env: Env, w: World, owner: Owner, f: Frame, retries: nat)
    requires TxInv(env, w) && !w.mutex.Sending? && f.seqno == w.txseq && f.mtype != HEARTBEAT
    ensures TxInv(env, Begin(w, owner, f, retries))
  {
    var w1 := Begin(w, owner, f, retries);
    forall g | g in w1.back && IsAgvType(g.mtype) ensures Attempt(w1, g) {
      assert g in w.back || g == f;
    }
    StillAnswered(w, w1);
    assert ConfirmedBlocks(w1) == ConfirmedBlocks(w);
  }

  lemma BeginKeepsTx(env: Env, w: World, owner: Owner, f: Frame, retries: nat)
    requires TxInv(env, w) && !w.mutex.Sending? && f.seqno == w.txseq
    requires |Begin(w, owner, f, retries).sent| < WORD
    ensures TxInv(env, Begin(w, owner, f, retries))
  {
    if f.mtype == HEARTBEAT {
      HeartbeatKeepsTx(env, w, f);
    } else {
      OpeningKeepsTx(env, w, owner, f, retries);
    }
  }

  lemma RetryKeepsTx(env: Env, w: World)
    requires TxInv(env, w) && w.mutex.Sending?
    ensures TxInv(env, Apply(env, w, Retry))
  {
    var w1 := Apply(env, w, Retry);
    forall g | g in w1.back && IsAgvType(g.mtype) ensures Attempt(w1, g) {
      assert g in w.back || g == w.mutex.frame;
    }
    StillAnswered(w, w1);
  }

  lemma GiveUpKeepsTx(env: Env, w: World)
    requires TxInv(env, w) && Discipline(env, w) && w.mutex.Sending? && w.mutex.retries == 1
    ensures TxInv(env, Apply(env, w, GiveUp))
  {
    var w1 := Apply(env, w, GiveUp);
    StillAnswered(w, w1);
  }

  lemma MessagesAreNotAcks(env: Env)
    requires Honest(env)
    ensures forall i :: 0 <= i < |env.msgs| ==> !IsAgvType(env.msgs[i].mtype)
  {
    forall i | 0 <= i < |env.msgs| ensures !IsAgvType(env.msgs[i].mtype) {
      assert WellFormed(env.msgs[i]);
    }
  }

  /** Only an acknowledgement can match the message in flight. */
  lemma MatchIsAck(env: Env, w: World, p: Packet)
    requires Honest(env) && AttemptsOk(w) && w.mutex.Sending? && IsAgvType(w.mutex.frame.mtype)
    requires var f := Wire(env, w.got, p); f.mtype == w.mutex.frame.mtype && f.seqno == w.mutex.frame.seqno
    ensures p.Ack? && p.j < |w.got|
    ensures w.got[p.j].mtype == w.mutex.frame.mtype && w.got[p.j].seqno == w.mutex.frame.seqno
    ensures w.got[p.j] == w.mutex.frame || w.got[p.j] in w.failed
  {
    MessagesAreNotAcks(env);
    if p.Ack? && p.j < |w.got| {
      assert w.got[p.j] in w.got;
    }
  }

  lemma SucceedKeepsTx(env: Env, w: World, p: Packet)
    requires Honest(env) && TxInv(env, w) && Discipline(env, w) && w.mutex.Sending?
    requires var f := Wire(env, w.got, p); f.mtype == w.mutex.frame.mtype && f.seqno == w.mutex.frame.seqno
    requires |w.sent| + 1 < WORD
    ensures TxInv(env, Succeed(w, p))
  {
    MatchIsAck(env, w, p);
    var f := w.mutex.frame;
    var w1 := Succeed(w, p);
    PayloadsAppend(w.sent, Sent(f, Some(p.j)));
    forall k | 0 <= k < |w1.sent| ensures w1.sent[k].frame.seqno == k && Answered(w1, w1.sent[k]) {
      assert k < |w.sent| ==> Answered(w, w.sent[k]);
    }
    if f.mtype == CONFIRM {
      ConfirmationNames(env.agvid, w.task.block);
      assert ConfirmedBlocks(w1) == ConfirmedBlocks(w) + [w.task.block];
    }
  }

  lemma ReceiveIsApart(env: Env, w: World, f: Frame, stale: leftover, reading: word)
    requires TxInv(env, w) && w.incoming == None
    ensures TxInv(env, Receive(env, w, f, stale, reading))
  {
    var w1 := Receive(env, w, f, stale, reading);
    forall g | g in w1.back && IsAgvType(g.mtype) ensures g in w.back {
    }
    ApartFromSending(env, w, w1);
  }

  lemma PollKeepsTx(env: Env, w: World, stale: leftover, reading: word)
    requires Honest(env) && TxInv(env, w) && Discipline(env, w)
    requires w.mutex.Sending? && w.incoming == None && w.rxq != []
    requires |Polled(env, w, stale, reading).sent| < WORD
    ensures TxInv(env, Polled(env, w, stale, reading))
  {
    var w1 := w.(rxq := w.rxq[1..]);
    ApartFromSending(env, w, w1);
    var f := Wire(env, w.got, w.rxq[0]);
    if f.mtype == w.mutex.frame.mtype && f.seqno == w.mutex.frame.seqno {
      SucceedKeepsTx(env, w1, w.rxq[0]);
    } else if |f.data| > 4 && IsForUs(env.agvid, f) {
      ReceiveIsApart(env, w1, Body(f), stale, reading);
    }
  }

  lemma MainKeepsTx(env: Env, w: World, stale: leftover, reading: word)
    requires TxInv(env, w) && w.mutex == Free && w.incoming == None && w.task == Looping && w.rxq != []
    ensures TxInv(env, MainReceived(env, w, stale, reading))
  {
    var w1 := w.(rxq := w.rxq[1..], task := Emptying);
    ApartFromSending(env, w, w1);
    var f := Cut(Wire(env, w.got, w.rxq[0]));
    if IsForUs(env.agvid, f) {
      ReceiveIsApart(env, w1, Body(f), stale, reading);
      var w2 := Receive(env, w1, Body(f), stale, reading);
      ApartFromSending(env, w2, w2.(mutex := Receiving));
    }
  }

  lemma PostKeepsTx(env: Env, w: World)
    requires TxInv(env, w) && w.incoming.Some? && !IsAgvType(w.incoming.value.mtype)
    ensures TxInv(env, Post(env, w, w.incoming.value))
  {
    var w1 := Post(env, w, w.incoming.value);
    forall g | g in w1.back && IsAgvType(g.mtype) ensures g in w.back {
    }
    ApartFromSending(env, w, w1);
  }

  lemma DispatchKeepsTx(env: Env, w: World)
    requires TxInv(env, w) && w.task.Confirmed?
    ensures TxInv(env, Apply(env, w, Dispatch))
  {
    var w1 := Apply(env, w, Dispatch);
    assert ConfirmedBlocks(w1) == ConfirmedBlocks(w);
  }

  lemma OutsideKeepsTx(env: Env, w: World, step: Step)
    requires Honest(env) && Inv(env, w) && TxInv(env, w) && IsOutside(step)
    ensures TxInv(env, Apply(env, w, step))
  {
    if Apply(env, w, step) == w {
      return;
    }
    match step
    case CtlHear => HearKeepsTx(env, w);
    case LoseBack(k) => Survivors(w.back, k); ApartFromSending(env, w, w.(back := Without(w.back, k)));
    case DuplicateBack(k) => Survivors(w.back, k); ApartFromSending(env, w, w.(back := Repeated(w.back, k)));
    case _ => ApartFromSending(env, w, Apply(env, w, step));
  }

  lemma InsideKeepsTx(env: Env, w: World, step: Step)
    requires Honest(env) && Inv(env, w) && TxInv(env, w) && |Apply(env, w, step).sent| < WORD
    requires !IsOutside(step) && Apply(env, w, step) != w
    ensures TxInv(env, Apply(env, w, step))
  {
    match step
    case StartSend(owner, mtype, data, retries) =>
      BeginKeepsTx(env, w, owner, Frame(mtype, w.txseq, data), retries);
    case StartConfirm =>
      BeginKeepsTx(env, w, ProtocolTask, Confirmation(env.agvid, w.txseq, w.task.block), 0);
    case Retry => RetryKeepsTx(env, w);
    case GiveUp => GiveUpKeepsTx(env, w);
    case PollRx(stale, reading) => PollKeepsTx(env, w, stale, reading);
    case MainRx(stale, reading) => MainKeepsTx(env, w, stale, reading);
    case Commit => PostKeepsTx(env, w);
    case Dispatch => DispatchKeepsTx(env, w);
    case _ => ApartFromSending(env, w, Apply(env, w, step));
  }

  lemma StepKeepsTx(env: Env, w: World, step: Step)
    requires Honest(env) && Inv(env, w) && TxInv(env, w) && |Apply(env, w, step).sent| < WORD
    ensures TxInv(env, Apply(env, w, step))
  {
    if IsOutside(step) {
      OutsideKeepsTx(env, w, step);
    } else if Apply(env, w, step) != w {
      InsideKeepsTx(env, w, step);
    }
  }

  // ------------------------------------------------ every run

  lemma SendsGrow(env: Env, w: World, step: Step)
    ensures |w.sent| <= |Apply(env, w, step).sent|
  {
  }

  lemma {:induction false} RunKeepsTx(env: Env, steps: seq<Step>, n: nat)
    requires Honest(env) && n <= |steps| && |Run(env, Initial(), steps, n).sent| < WORD
    ensures TxInv(env, Run(env, Initial(), steps, n))
  {
    if n > 0 {
      var w := Run(env, Initial(), steps, n - 1);
      SendsGrow(env, w, steps[n - 1]);
      RunKeepsTx(env, steps, n - 1);
      RunKeepsInv(env, steps, n - 1);
      StepKeepsTx(env, w, steps[n - 1]);
    }
  }

  /** The sequence number has advanced once for every completed send and no other time, the k-th completed
      send carried number k, and each but the heartbeats was ended by an acknowledgement of a frame that
      the controller got, of the same type and number. */
  lemma {:induction false} SequenceCountsSends(env: Env, steps: seq<Step>)
    requires Honest(env) && |Run(env, Initial(), steps, |steps|).sent| < WORD
    ensures var w := Run(env, Initial(), steps, |steps|);
            && w.txseq == |w.sent|
            && forall k :: 0 <= k < |w.sent| ==> w.sent[k].frame.seqno == k && Answered(w, w.sent[k])
  {
    RunKeepsTx(env, steps, |steps|);
  }

  /** An acknowledgement that ends a send answers the message in flight itself, unless a different message
      of the same type was given up at the same sequence number before. */
  lemma {:induction false} AckAnswersMessage(env: Env, steps: seq<Step>, k: nat)
    requires Honest(env) && |Run(env, Initial(), steps, |steps|).sent| < WORD
    requires var w := Run(env, Initial(), steps, |steps|);
             && k < |w.sent| && w.sent[k].frame.mtype != HEARTBEAT
             && forall f :: f in w.failed && f.mtype == w.sent[k].frame.mtype && f.seqno == k ==> f == w.sent[k].frame
    ensures var w := Run(env, Initial(), steps, |steps|); w.sent[k].frame in w.got
  {
    SequenceCountsSends(env, steps);
    var w := Run(env, Initial(), steps, |steps|);
    assert Answered(w, w.sent[k]);
  }

  // ------------------------------------------------ the guard: how a message is sent

  /** Every send of type t in the run is started with this number of retries. */
  ghost predicate StartedWith(steps: seq<Step>, t: word, retries: nat) {
    forall i :: 0 <= i < |steps| && steps[i].StartSend? && steps[i].mtype == t ==> steps[i].retries == retries
  }

  /** Every completed send of type t reached the controller. */
  ghost predicate AllHeard(w: World, t: word) {
    forall k :: 0 <= k < |w.sent| && w.sent[k].frame.mtype == t ==> w.sent[k].frame in w.got
  }

  /** No message of type t has been or can be given up. */
  ghost predicate NeverGivenUp(w: World, t: word) {
    && (forall f :: f in w.failed ==> f.mtype != t)
    && (w.mutex.Sending? && w.mutex.frame.mtype == t ==> w.mutex.retries == 0)
  }

  lemma UnlimitedStep(env: Env, w: World, t: word, step: Step)
    requires NeverGivenUp(w, t) && (step.StartSend? && step.mtype == t ==> step.retries == 0)
    ensures NeverGivenUp(Apply(env, w, step), t)
  {
  }

  lemma {:induction false} UnlimitedRun(env: Env, steps: seq<Step>, t: word, n: nat)
    requires n <= |steps| && StartedWith(steps, t, 0)
    ensures NeverGivenUp(Run(env, Initial(), steps, n), t)
  {
    if n > 0 {
      UnlimitedRun(env, steps, t, n - 1);
      UnlimitedStep(env, Run(env, Initial(), steps, n - 1), t, steps[n - 1]);
    }
  }

  /** Messages of a type that is only sent with unlimited retries are acknowledged for what they are. */
  lemma {:induction false} UnlimitedSendsAreHeard(env: Env, steps: seq<Step>, t: word)
    requires Honest(env) && |Run(env, Initial(), steps, |steps|).sent| < WORD
    requires t != HEARTBEAT && StartedWith(steps, t, 0)
    ensures AllHeard(Run(env, Initial(), steps, |steps|), t)
  {
    SequenceCountsSends(env, steps);
    UnlimitedRun(env, steps, t, |steps|);
    var w := Run(env, Initial(), steps, |steps|);
    forall k | 0 <= k < |w.sent| && w.sent[k].frame.mtype == t ensures w.sent[k].frame in w.got {
      assert Answered(w, w.sent[k]);
    }
  }

  lemma {:induction false} ConfirmedIsPrefix(env: Env, w: World)
    requires Honest(env) && RxInv(env, w)
    ensures ConfirmedBlocks(w) <= Actions(env, |env.msgs|)
  {
    ActionsGrow(env, w.accepted, |env.msgs|);
    var all := Actions(env, |env.msgs|);
    assert w.dispatched + InHand(w.task) + w.rx.que <= all;
    FirstOfThree(w.dispatched + InHand(w.task), w.rx.que, [], all) by {
      assert w.dispatched + InHand(w.task) + w.rx.que + [] == w.dispatched + InHand(w.task) + w.rx.que;
    }
    if !w.task.Confirmed? {
      FirstOfThree(w.dispatched, InHand(w.task), w.rx.que, all);
      assert w.dispatched + [] == w.dispatched;
    }
  }

  lemma {:induction false} CommandsAreNumbered(env: Env, n: nat)
    requires Honest(env) && n <= |env.msgs|
    ensures forall j, k :: 0 <= j < k < |Actions(env, n)| ==> Actions(env, n)[j].seqno < Actions(env, n)[k].seqno
    ensures n > 0 ==> forall k :: 0 <= k < |Actions(env, n)| ==> Actions(env, n)[k].seqno <= env.msgs[n - 1].seqno
  {
    if n > 0 {
      CommandsAreNumbered(env, n - 1);
      assert n > 1 ==> env.msgs[n - 2].seqno < env.msgs[n - 1].seqno;
    }
  }

  /** The k-th completed confirmation names this vehicle and the type and the number of the controller's k-th
      command, so no two are alike; the controller got each of them; and the commands dispatched are those
      confirmed, but for at most the last. */
  lemma {:induction false} ConfirmedThenDispatched(env: Env, steps: seq<Step>)
    requires Honest(env) && |Run(env, Initial(), steps, |steps|).sent| < WORD
    ensures var w, all := Run(env, Initial(), steps, |steps|), Actions(env, |env.msgs|);
            var payloads := ConfirmedPayloads(w.sent);
            && |payloads| <= |all| && w.dispatched <= all && |w.dispatched| <= |payloads| <= |w.dispatched| + 1
            && (forall k :: 0 <= k < |payloads| ==>
                  && |payloads[k]| == 12 && WordAt(payloads[k], 0) == env.agvid
                  && WordAt(payloads[k], 4) == all[k].mtype && WordAt(payloads[k], 8) == all[k].seqno)
            && (forall j, k :: 0 <= j < k < |payloads| ==> payloads[j] != payloads[k])
            && forall k :: 0 <= k < |w.sent| && w.sent[k].frame.mtype == CONFIRM ==> w.sent[k].frame in w.got
  {
    RunKeepsTx(env, steps, |steps|);
    RunKeepsInv(env, steps, |steps|);
    var w := Run(env, Initial(), steps, |steps|);
    ConfirmedIsPrefix(env, w);
    PayloadsDiffer(env, ConfirmedPayloads(w.sent), ConfirmedBlocks(w));
    forall k | 0 <= k < |w.sent| && w.sent[k].frame.mtype == CONFIRM ensures w.sent[k].frame in w.got {
      assert Answered(w, w.sent[k]);
    }
  }

  lemma {:induction false} PayloadsDiffer(env: Env, payloads: seq<seq<byte>>, blocks: seq<Frame>)
    requires Honest(env) && ConfirmEach(env.agvid, payloads, blocks) && blocks <= Actions(env, |env.msgs|)
    ensures forall j, k :: 0 <= j < k < |payloads| ==> payloads[j] != payloads[k]
  {
    CommandsAreNumbered(env, |env.msgs|);
    forall j, k | 0 <= j < k < |payloads| ensures payloads[j] != payloads[k] {
      assert blocks[j].seqno < blocks[k].seqno;
    }
  }
}
