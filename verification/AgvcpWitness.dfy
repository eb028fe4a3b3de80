/** Runs of the protocol worth knowing: every acceptable message can be carried out; when a message that
    is no command does overtake one; and when an acknowledgement is taken for another message's.
  */
module AgvcpWitness {
  import opened Arithmetic
  import opened LibMem
  import opened OsKernel
  import opened AgvcpFrame
  import opened Agvcp
  import opened AgvcpProtocol
  import opened AgvcpAnswers
  import opened AgvcpDelivery
  import opened AgvcpSender
  import opened AgvcpRuns

  // ------------------------------------------------ a message carried out

  /** A message of a known type for this AGV, short enough for the main loop. */
  predicate Acceptable(env: Env, m: Frame) {
    && (m.mtype == ACTION || m.mtype == READ_PARAM || m.mtype == WRITE_PARAM)
    && 4 < |m.data| <= MAIN_BUFFER && IsForUs(env.agvid, m)
  }

  /** Nothing is under way and the first i messages are done with. */
  ghost predicate AtRest(env: Env, w: World, i: nat) {
    && i <= |env.msgs| && w.cur == i && w.accepted == i
    && w.rx == Receiver(if i == 0 then 0xFFFF_FFFF else env.msgs[i - 1].seqno, MAX_ACTIONS, [])
    && w.incoming == None && w.task == Looping && w.mutex == Free
    && w.air == [] && w.rxq == [] && w.back == []
  }

  /** The next message is the i-th, and the AGV is able to take it. */
  ghost predicate Ready(env: Env, w: World, i: nat) {
    Honest(env) && AtRest(env, w, i) && i < |env.msgs| && Acceptable(env, env.msgs[i])
  }

  lemma NextIsNew(env: Env, i: nat)
    requires Honest(env) && i < |env.msgs|
    ensures WellFormed(env.msgs[i]) && 0 < env.msgs[i].seqno < 0xFFFF_FFFF
    ensures i > 0 ==> env.msgs[i - 1].seqno < env.msgs[i].seqno
  {
  }

  /** From the controller into the receive queue. */
  lemma Arriving(env: Env, w: World)
    requires w.cur < |env.msgs| && |env.msgs[w.cur].data| + 8 <= MAX_MSG && w.air == [] && w.rxq == []
    ensures Apply(env, Apply(env, w, CtlSend), Deliver) == w.(rxq := [Msg(w.cur)])
  {
    assert Apply(env, w, CtlSend) == w.(air := [Msg(w.cur)]);
  }

  /** A command with its block in hand and its confirmation on the way. */
  ghost function InConfirmation(env: Env, w: World, i: nat): World
    requires i < |env.msgs| && |env.msgs[i].data| >= 4
  {
    var m := env.msgs[i];
    var confirmation := Confirmation(env.agvid, w.txseq, Body(m));
    w.(rx := Receiver(m.seqno, MAX_ACTIONS - 1, []), task := Confirming(Body(m)), cur := i + 1, accepted := i + 1,
       mutex := Sending(ProtocolTask, confirmation, 0), back := [confirmation])
  }

  /** The command as a block being filled, and as a block in the queue. */
  ghost function InFilling(env: Env, w: World, i: nat): World
    requires i < |env.msgs| && |env.msgs[i].data| >= 4
  {
    w.(rx := w.rx.(free := MAX_ACTIONS - 1), incoming := Some(Body(env.msgs[i])), mutex := Receiving, task := Emptying)
  }

  ghost function InQueue(env: Env, w: World, i: nat): World
    requires i < |env.msgs| && |env.msgs[i].data| >= 4
  {
    w.(rx := Receiver(env.msgs[i].seqno, MAX_ACTIONS - 1, [Body(env.msgs[i])]), task := Emptying, cur := i + 1,
       accepted := i + 1)
  }

  /** The command is received and takes a block. */
  lemma CommandIsTaken(env: Env, w: World, i: nat, stale: leftover)
    requires Ready(env, w, i) && env.msgs[i].mtype == ACTION
    ensures Apply(env, w.(rxq := [Msg(i)]), MainRx(stale, 0)) == InFilling(env, w, i)
  {
    NextIsNew(env, i);
    CommandInMainLoop(env, w.(task := Emptying), env.msgs[i], stale, 0);
  }

  /** It is posted and acknowledged. */
  lemma CommandIsPosted(env: Env, w: World, i: nat)
    requires Ready(env, w, i) && env.msgs[i].mtype == ACTION
    ensures Apply(env, Apply(env, InFilling(env, w, i), Commit), CtlHear) == InQueue(env, w, i)
  {
    NextIsNew(env, i);
    var m := env.msgs[i];
    assert Apply(env, InFilling(env, w, i), Commit)
        == w.(rx := Receiver(m.seqno, MAX_ACTIONS - 1, [Body(m)]), task := Emptying, accepted := i + 1,
                    back := [Frame(ACTION, m.seqno, Htonl(env.agvid))]);
  }

  lemma CommandIsConfirmed(env: Env, w: World, i: nat)
    requires Ready(env, w, i) && env.msgs[i].mtype == ACTION
    ensures Apply(env, Apply(env, InQueue(env, w, i), TakeBlock), StartConfirm) == InConfirmation(env, w, i)
  {
    var m := env.msgs[i];
    assert Apply(env, InQueue(env, w, i), TakeBlock)
        == InQueue(env, w, i).(rx := Receiver(m.seqno, MAX_ACTIONS - 1, []), task := Confirming(Body(m)));
  }

  lemma CommandReachesConfirmation(env: Env, w: World, i: nat)
    requires Ready(env, w, i) && env.msgs[i].mtype == ACTION
    ensures Reaches(env, w, InConfirmation(env, w, i))
  {
    var stale: leftover := [0, 0, 0, 0, 0, 0, 0, 0];
    var w3, w5 := InFilling(env, w, i), InQueue(env, w, i);
    Arriving(env, w);
    CommandIsTaken(env, w, i, stale);
    ReachesThree(env, w, CtlSend, Deliver, MainRx(stale, 0));
    CommandIsPosted(env, w, i);
    ReachesTwo(env, w3, Commit, CtlHear);
    ReachesJoins(env, w, w3, w5);
    CommandIsConfirmed(env, w, i);
    ReachesTwo(env, w5, TakeBlock, StartConfirm);
    ReachesJoins(env, w, w5, InConfirmation(env, w, i));
  }

  /** The controller has got the confirmation, and its acknowledgement has arrived. */
  ghost function Acknowledged(env: Env, w: World, i: nat): World
    requires i < |env.msgs| && |env.msgs[i].data| >= 4
  {
    var c := InConfirmation(env, w, i);
    c.(got := w.got + [c.mutex.frame], back := [], rxq := [Ack(|w.got|, [])])
  }

  /** The controller gets the confirmation and acknowledges it. */
  lemma ConfirmationIsHeard(env: Env, w: World, i: nat)
    requires Ready(env, w, i) && env.msgs[i].mtype == ACTION
    ensures Apply(env, Apply(env, Apply(env, InConfirmation(env, w, i), CtlHear), CtlAck(|w.got|, [])), Deliver)
         == Acknowledged(env, w, i)
  {
    var c := InConfirmation(env, w, i);
    var c1 := Apply(env, c, CtlHear);
    assert i + 1 < |env.msgs| ==> WellFormed(env.msgs[i + 1]);
    assert c1 == c.(got := w.got + [c.mutex.frame], back := []);
    assert Apply(env, c1, CtlAck(|w.got|, [])) == c1.(air := [Ack(|w.got|, [])]);
  }

  /** The acknowledgement ends the wait, and the command is dispatched. */
  lemma CommandIsDispatched(env: Env, w: World, i: nat, c: World, stale: leftover)
    requires Ready(env, w, i) && env.msgs[i].mtype == ACTION
    requires c == Acknowledged(env, w, i)
    ensures AtRest(env, Apply(env, Apply(env, Apply(env, c, PollRx(stale, 0)), Dispatch), TakeBlock), i + 1)
  {
    var f := Wire(env, c.got, Ack(|w.got|, []));
    assert f.mtype == CONFIRM && f.seqno == w.txseq;
    var c1 := Apply(env, c, PollRx(stale, 0));
    assert c1 == Succeed(c.(rxq := []), Ack(|w.got|, []));
    var c2 := Apply(env, c1, Dispatch);
    assert c2.task == Emptying && c2.rx == Receiver(env.msgs[i].seqno, MAX_ACTIONS, []);
  }

  lemma CommandIsCarriedOut(env: Env, w: World, i: nat) returns (u: World)
    requires Ready(env, w, i) && env.msgs[i].mtype == ACTION
    ensures Reaches(env, w, u) && AtRest(env, u, i + 1)
  {
    var stale: leftover := [0, 0, 0, 0, 0, 0, 0, 0];
    CommandReachesConfirmation(env, w, i);
    var c := InConfirmation(env, w, i);
    ConfirmationIsHeard(env, w, i);
    ReachesThree(env, c, CtlHear, CtlAck(|w.got|, []), Deliver);
    var c1 := Acknowledged(env, w, i);
    ReachesJoins(env, w, c, c1);
    CommandIsDispatched(env, w, i, c1, stale);
    ReachesThree(env, c1, PollRx(stale, 0), Dispatch, TakeBlock);
    u := Apply(env, Apply(env, Apply(env, c1, PollRx(stale, 0)), Dispatch), TakeBlock);
    ReachesJoins(env, w, c1, u);
  }

  /** A parameter message is accepted by the main loop. */
  lemma ParamIsAccepted(env: Env, w: World, m: Frame, stale: leftover)
    requires WellFormed(m) && Acceptable(env, m) && m.mtype != ACTION && m.seqno != w.rx.rxseq
    ensures var w1 := Receive(env, w, Body(m), stale, 0);
            && w1.accepted == w.accepted + 1 && |w1.back| == |w.back| + 1 && w.back <= w1.back
            && IsReply(env.agvid, w1.back[|w.back|], m, 0)
            && w1 == w.(rx := w.rx.(rxseq := m.seqno), back := w1.back, accepted := w1.accepted, written := w1.written)
  {
    AnswerSays(env.agvid, w.rx, Body(m), stale, 0);
    AnswersMessage(env.agvid, Process(env.agvid, w.rx, Body(m), stale, 0).reply.value, m, Body(m), stale, 0);
  }

  lemma ParamIsHeard(env: Env, w: World, i: nat, stale: leftover) returns (u: World)
    requires Ready(env, w, i) && env.msgs[i].mtype != ACTION
    ensures u == Apply(env, Apply(env, Apply(env, w.(rxq := [Msg(i)]), MainRx(stale, 0)), CtlHear), TakeBlock)
    ensures AtRest(env, u, i + 1)
  {
    NextIsNew(env, i);
    var m := env.msgs[i];
    ParamIsAccepted(env, w.(task := Emptying), m, stale);
    var w1 := Apply(env, w.(rxq := [Msg(i)]), MainRx(stale, 0));
    assert w1 == Receive(env, w.(task := Emptying), Body(m), stale, 0);
    var w2 := Apply(env, w1, CtlHear);
    assert w2.cur == i + 1 && w2.back == [];
    u := Apply(env, w2, TakeBlock);
  }

  lemma ParamIsCarriedOut(env: Env, w: World, i: nat) returns (u: World)
    requires Ready(env, w, i) && env.msgs[i].mtype != ACTION
    ensures Reaches(env, w, u) && AtRest(env, u, i + 1)
  {
    var stale: leftover := [0, 0, 0, 0, 0, 0, 0, 0];
    Arriving(env, w);
    ReachesTwo(env, w, CtlSend, Deliver);
    u := ParamIsHeard(env, w, i, stale);
    ReachesThree(env, w.(rxq := [Msg(i)]), MainRx(stale, 0), CtlHear, TakeBlock);
    ReachesJoins(env, w, w.(rxq := [Msg(i)]), u);
  }

  /** Any number of acceptable messages can all be carried out: some run ends with nothing under way, all
      their commands dispatched and all their writes applied. */
  lemma {:induction false} PrefixIsCarriedOut(env: Env, i: nat) returns (w: World)
    requires Honest(env) && i <= |env.msgs| && forall k :: 0 <= k < i ==> Acceptable(env, env.msgs[k])
    ensures Reaches(env, Initial(), w) && AtRest(env, w, i)
    ensures w.dispatched == Actions(env, i) && w.written == Writes(env, i)
  {
    if i == 0 {
      w := Initial();
      ReachesItself(env, w);
    } else {
      var u := PrefixIsCarriedOut(env, i - 1);
      if env.msgs[i - 1].mtype == ACTION {
        w := CommandIsCarriedOut(env, u, i - 1);
      } else {
        w := ParamIsCarriedOut(env, u, i - 1);
      }
      ReachesJoins(env, Initial(), u, w);
    }
    ReachableDelivery(env, w);
  }

  lemma ReachableDelivery(env: Env, w: World)
    requires Honest(env) && Reaches(env, Initial(), w)
    ensures Inv(env, w)
  {
    var states :| Trace(env, states, Initial(), w);
    var steps := TraceIsRun(env, states, Initial(), w);
    RunKeepsInv(env, steps, |steps|);
  }

  // ------------------------------------------------ overtaking

  /** The next message arrives while the command is being confirmed. */
  lemma NextArrives(env: Env, w: World, i: nat) returns (u: World)
    requires Ready(env, w, i) && env.msgs[i].mtype == ACTION
    requires i + 1 < |env.msgs| && Acceptable(env, env.msgs[i + 1])
    ensures u == InConfirmation(env, w, i).(rxq := [Msg(i + 1)]) && Reaches(env, w, u)
  {
    var c := InConfirmation(env, w, i);
    CommandReachesConfirmation(env, w, i);
    Arriving(env, c);
    ReachesTwo(env, c, CtlSend, Deliver);
    u := c.(rxq := [Msg(i + 1)]);
    ReachesJoins(env, w, c, u);
  }

  lemma NextTakesEffect(env: Env, w: World, c: World, i: nat, stale: leftover)
    requires Honest(env) && i + 1 < |env.msgs| && |env.msgs[i].data| >= 4 && Acceptable(env, env.msgs[i + 1])
    requires env.msgs[i + 1].mtype != ACTION && w.incoming == None
    requires c == InConfirmation(env, w, i).(rxq := [Msg(i + 1)])
    ensures Effective(env.agvid, c, Apply(env, c, PollRx(stale, 0)), env.msgs[i + 1], 0)
  {
    NextIsNew(env, i + 1);
    var m := env.msgs[i + 1];
    ParamIsAccepted(env, c.(rxq := []), m, stale);
    assert Apply(env, c, PollRx(stale, 0)) == Receive(env, c.(rxq := []), Body(m), stale, 0);
    if m.mtype == WRITE_PARAM {
      BodyWords(m, Body(m), stale);
    }
  }

  /** Commands do not overtake commands. But wherever a command is followed by a parameter message, there
      is a run in which that message is answered, and a write applied, while the command is still being
      confirmed. */
  lemma ParamOvertakesCommand(env: Env, i: nat, stale: leftover) returns (w: World)
    requires Honest(env) && i + 1 < |env.msgs| && forall k :: 0 <= k <= i + 1 ==> Acceptable(env, env.msgs[k])
    requires env.msgs[i].mtype == ACTION && env.msgs[i + 1].mtype != ACTION
    ensures Reaches(env, Initial(), w) && w.accepted == i + 1 && InHand(w.task) == [Body(env.msgs[i])]
    ensures Effective(env.agvid, w, Apply(env, w, PollRx(stale, 0)), env.msgs[i + 1], 0)
    ensures Apply(env, w, PollRx(stale, 0)).dispatched == Actions(env, i)
  {
    var u := PrefixIsCarriedOut(env, i);
    w := NextArrives(env, u, i);
    ReachesJoins(env, Initial(), u, w);
    NextTakesEffect(env, u, w, i, stale);
  }

  // ------------------------------------------------ acknowledgements of other messages

  /** A type that a task sends of its own accord, with an acknowledgement. */
  predicate Acknowledgeable(owner: Owner, t: word) { MaySend(Initial(), owner, t) && t != HEARTBEAT }

  /** The controller has got f; its sender is waiting, and has n tries left. */
  ghost function Waiting(owner: Owner, f: Frame, n: nat): World {
    Initial().(got := [f], mutex := Sending(owner, f, n))
  }

  /** The sender has given f up. */
  ghost function TimedOut(f: Frame): World { Initial().(got := [f], failed := [f]) }

  /** Retransmissions that are lost. */
  function LostRetries(n: nat): seq<Step> {
    if n == 0 then [] else [Retry, LoseBack(0)] + LostRetries(n - 1)
  }

  lemma FirstIsHeard(env: Env, owner: Owner, f: Frame, n: nat)
    requires Honest(env) && IsAgvType(f.mtype)
    ensures Apply(env, Initial().(back := [f], mutex := Sending(owner, f, n)), CtlHear) == Waiting(owner, f, n)
  {
    assert 0 < |env.msgs| ==> WellFormed(env.msgs[0]);
  }

  lemma FirstSend(env: Env, owner: Owner, f: Frame, n: nat)
    requires Honest(env) && Acknowledgeable(owner, f.mtype) && f.seqno == 0 && |f.data| <= 16
    ensures RunAll(env, Initial(), [StartSend(owner, f.mtype, f.data, n), CtlHear]) == Waiting(owner, f, n)
  {
    var w1 := Apply(env, Initial(), StartSend(owner, f.mtype, f.data, n));
    assert w1 == Initial().(back := [f], mutex := Sending(owner, f, n));
    FirstIsHeard(env, owner, f, n);
    RunTwo(env, Initial(), StartSend(owner, f.mtype, f.data, n), CtlHear);
  }

  lemma OneLostRetry(env: Env, owner: Owner, f: Frame, n: nat)
    requires n > 1 && |f.data| <= 16
    ensures RunAll(env, Waiting(owner, f, n), [Retry, LoseBack(0)]) == Waiting(owner, f, n - 1)
  {
    assert Apply(env, Waiting(owner, f, n), Retry) == Waiting(owner, f, n - 1).(back := [f]);
    RunTwo(env, Waiting(owner, f, n), Retry, LoseBack(0));
  }

  lemma {:induction false} RetriesRunOut(env: Env, owner: Owner, f: Frame, n: nat)
    requires n > 0 && |f.data| <= 16
    ensures RunAll(env, Waiting(owner, f, n), LostRetries(n - 1) + [GiveUp]) == TimedOut(f)
  {
    RunJoins(env, Waiting(owner, f, n), LostRetries(n - 1), [GiveUp]);
    if n == 1 {
      RunStep(env, Waiting(owner, f, 1), GiveUp);
    } else {
      OneLostRetry(env, owner, f, n);
      RetriesRunOut(env, owner, f, n - 1);
      RunJoins(env, Waiting(owner, f, n), [Retry, LoseBack(0)], LostRetries(n - 2) + [GiveUp]);
      assert LostRetries(n - 1) + [GiveUp] == [Retry, LoseBack(0)] + (LostRetries(n - 2) + [GiveUp]);
    }
  }

  /** The second message is in flight when the acknowledgement of the first arrives. */
  ghost function LateAck(owner: Owner, f: Frame, g: Frame, n: nat): World {
    TimedOut(f).(back := [g], mutex := Sending(owner, g, n), rxq := [Ack(0, [])])
  }

  lemma SecondSend(env: Env, owner: Owner, f: Frame, g: Frame, n: nat)
    requires Acknowledgeable(owner, g.mtype) && f.mtype == g.mtype && f.seqno == g.seqno == 0 && |g.data| <= 16
    ensures RunAll(env, TimedOut(f), [StartSend(owner, g.mtype, g.data, n)] + [CtlAck(0, []), Deliver])
         == LateAck(owner, f, g, n)
  {
    var w1 := Apply(env, TimedOut(f), StartSend(owner, g.mtype, g.data, n));
    assert w1 == TimedOut(f).(back := [g], mutex := Sending(owner, g, n));
    assert Apply(env, w1, CtlAck(0, [])) == w1.(air := [Ack(0, [])]);
    RunStep(env, TimedOut(f), StartSend(owner, g.mtype, g.data, n));
    RunTwo(env, w1, CtlAck(0, []), Deliver);
    RunJoins(env, TimedOut(f), [StartSend(owner, g.mtype, g.data, n)], [CtlAck(0, []), Deliver]);
  }

  lemma LateAckIsTaken(env: Env, owner: Owner, f: Frame, g: Frame, n: nat, stale: leftover)
    requires f.mtype == g.mtype && f.seqno == g.seqno == 0
    ensures var w := RunAll(env, LateAck(owner, f, g, n), [PollRx(stale, 0)]);
            w.sent == [Sent(g, Some(0))] && w.got == [f]
  {
    RunStep(env, LateAck(owner, f, g, n), PollRx(stale, 0));
  }

  /** Two sends of one type, the first given up, and the second ended by the first one's acknowledgement. */
  function TwoSends(owner: Owner, t: word, first: seq<byte>, second: seq<byte>, n: nat, stale: leftover): seq<Step>
    requires n > 0
  {
    [StartSend(owner, t, first, n), CtlHear] + (LostRetries(n - 1) + [GiveUp])
    + ([StartSend(owner, t, second, n)] + [CtlAck(0, []), Deliver]) + [PollRx(stale, 0)]
  }

  /** For every type sent with a limited number of tries there is a run in which the acknowledgement of a
      message that was given up ends a newer one, which the controller never got. */
  lemma LateAckEndsNewerMessage(env: Env, owner: Owner, t: word, first: seq<byte>, second: seq<byte>, n: nat,
                                stale: leftover)
    requires Honest(env) && Acknowledgeable(owner, t) && n > 0
    requires first != second && |first| <= 16 && |second| <= 16
    ensures var w := RunAll(env, Initial(), TwoSends(owner, t, first, second, n, stale));
            w.sent == [Sent(Frame(t, 0, second), Some(0))] && w.got == [Frame(t, 0, first)]
  {
    var f, g := Frame(t, 0, first), Frame(t, 0, second);
    var a, b := [StartSend(owner, t, first, n), CtlHear], LostRetries(n - 1) + [GiveUp];
    var c := [StartSend(owner, t, second, n)] + [CtlAck(0, []), Deliver];
    FirstSend(env, owner, f, n);
    RetriesRunOut(env, owner, f, n);
    RunJoins(env, Initial(), a, b);
    SecondSend(env, owner, f, g, n);
    RunJoins(env, Initial(), a + b, c);
    LateAckIsTaken(env, owner, f, g, n, stale);
    RunJoins(env, Initial(), a + b + c, [PollRx(stale, 0)]);
  }

  lemma {:induction false} RetriesStartNothing(n: nat)
    ensures forall i :: 0 <= i < |LostRetries(n)| ==> !LostRetries(n)[i].StartSend?
  {
    if n > 0 {
      RetriesStartNothing(n - 1);
    }
  }

  /** The run starts its sends of type t with n tries. */
  lemma TwoSendsStartedWith(owner: Owner, t: word, first: seq<byte>, second: seq<byte>, n: nat, stale: leftover)
    requires n > 0
    ensures StartedWith(TwoSends(owner, t, first, second, n, stale), t, n)
  {
    RetriesStartNothing(n - 1);
  }

  /** In every run that starts its sends of type t with this number of tries, what is acknowledged of that
      type has reached the controller. */
  ghost predicate AcksAreTrue(env: Env, t: word, retries: nat) {
    forall steps :: StartedWith(steps, t, retries) && |RunAll(env, Initial(), steps).sent| < WORD ==>
      AllHeard(RunAll(env, Initial(), steps), t)
  }

  /** Acknowledgements of a type can be trusted exactly when its messages are sent with unlimited retries. */
  lemma AcksAreTrueExactly(env: Env, owner: Owner, t: word, retries: nat)
    requires Honest(env) && Acknowledgeable(owner, t)
    ensures AcksAreTrue(env, t, retries) <==> retries == 0
  {
    if retries == 0 {
      forall steps | StartedWith(steps, t, 0) && |RunAll(env, Initial(), steps).sent| < WORD
        ensures AllHeard(RunAll(env, Initial(), steps), t)
      {
        UnlimitedSendsAreHeard(env, steps, t);
      }
    } else {
      var stale: leftover := [0, 0, 0, 0, 0, 0, 0, 0];
      var steps := TwoSends(owner, t, [0], [1], retries, stale);
      LateAckEndsNewerMessage(env, owner, t, [0], [1], retries, stale);
      TwoSendsStartedWith(owner, t, [0], [1], retries, stale);
      var w := RunAll(env, Initial(), steps);
      assert w.sent[0].frame == Frame(t, 0, [1]) && w.got[0] == Frame(t, 0, [0]);
      assert !AllHeard(w, t);
    }
  }
}
