/** The control protocol as a state machine: the AGV's protocol task and vehicle task
    (usr/application/agvcp.c), the receive queue, a lossy and duplicating FIFO network, and a
    stop-and-wait controller, interleaved in any order.

    A step whose guard does not hold changes nothing, so every list of steps is a run. Time-outs may
    happen at any moment and the controller may acknowledge any frame it got any number of times.
  */
module AgvcpProtocol {
  import opened Arithmetic
  import opened LibMem
  import opened OsKernel
  import opened AgvcpFrame
  import opened Agvcp

  // ------------------------------------------------ the environment

  /** The AGV's name and the controller's messages, in the order in which it sends them. */
  datatype Env = Env(agvid: word, msgs: seq<Frame>)

  /** Message types that the AGV originates; the controller's acknowledgements repeat them. */
  predicate IsAgvType(t: word) {
    t in {REGISTER, UNREGISTER, HEARTBEAT, ACTION_START, ERROR_REPORT, ERROR_RECOVERY, ACTION_OVER,
          REPORT_FLAGPOINT, CONFIRM}
  }

  const ACTION_START: word := 9
  const ERROR_RECOVERY: word := 14

  /** A well-formed controller message: an AGV name, for commands and parameter writes the whole of their
      fixed fields, and for commands a true length. */
  predicate WellFormed(m: Frame) {
    && |m.data| >= 4 && !IsAgvType(m.mtype) && 0 < m.seqno < 0xFFFF_FFFF
    && (m.mtype == ACTION ==> |m.data| >= 12 && WordAt(m.data, 8) + 12 == |m.data|)
    && (m.mtype == WRITE_PARAM ==> |m.data| >= 12)
  }

  ghost predicate Honest(env: Env) {
    && (forall i :: 0 <= i < |env.msgs| ==> WellFormed(env.msgs[i]))
    && (forall i, j :: 0 <= i < j < |env.msgs| ==> env.msgs[i].seqno < env.msgs[j].seqno)
  }

  // ------------------------------------------------ the state

  /** A packet on its way to the AGV: a controller message or an acknowledgement of the j-th frame the
      controller got. */
  datatype Packet = Msg(i: nat) | Ack(j: nat, data: seq<byte>)

  datatype Owner = ProtocolTask | VehicleTask

  /** The send mutex, and what its holder is doing. */
  datatype Mutex = Free | Receiving | Sending(owner: Owner, frame: Frame, retries: nat)

  /** Where the protocol task is: in its main loop, or draining the action queue with a block in hand. */
  datatype Task = Looping | Emptying | Confirming(block: Frame) | Confirmed(block: Frame)

  /** A completed send and the frame whose acknowledgement ended it (none for a heartbeat). */
  datatype Sent = Sent(frame: Frame, heard: Option<nat>)

  /** rx, incoming, task, mutex, txseq: the AGV; air, rxq, back: the network and the receive queue; cur,
      got: the controller; the rest is history. incoming is a command whose block has been taken from the
      pool and not yet posted. */
  datatype World = World(
    rx: Receiver, incoming: Option<Frame>, task: Task, mutex: Mutex, txseq: word,
    air: seq<Packet>, rxq: seq<Packet>, back: seq<Frame>,
    cur: nat, got: seq<Frame>,
    accepted: nat, dispatched: seq<Frame>, written: seq<(word, word)>, sent: seq<Sent>, failed: seq<Frame>)

  function Initial(): World {
    World(Receiver(0xFFFF_FFFF, MAX_ACTIONS, []), None, Looping, Free, 0,
          [], [], [], 0, [], 0, [], [], [], [])
  }

  function Wire(env: Env, got: seq<Frame>, p: Packet): Frame {
    match p
    case Msg(i) => if i < |env.msgs| then env.msgs[i] else Frame(0, 0, [])
    case Ack(j, data) => if j < |got| then Frame(got[j].mtype, got[j].seqno, data) else Frame(0, 0, [])
  }

  /** The payload cut to the main loop's buffer. */
  function Cut(f: Frame): Frame {
    if |f.data| > MAIN_BUFFER then f.(data := f.data[..MAIN_BUFFER]) else f
  }

  // ------------------------------------------------ the steps

  datatype Step =
    | CtlSend | CtlHear | CtlAck(j: nat, data: seq<byte>)
    | Lose(k: nat) | Duplicate(k: nat) | LoseBack(k: nat) | DuplicateBack(k: nat)
    | Deliver
    | StartSend(owner: Owner, mtype: word, data: seq<byte>, retries: nat)
    | Retry | GiveUp | PollRx(stale: leftover, reading: word)
    | MainRx(stale: leftover, reading: word) | Commit
    | StartDrain | TakeBlock | StartConfirm | Dispatch

  function Without<T>(s: seq<T>, k: nat): seq<T>
    requires k < |s|
  {
    s[..k] + s[k + 1..]
  }

  function Repeated<T>(s: seq<T>, k: nat): seq<T>
    requires k < |s|
  {
    s[..k + 1] + s[k..]
  }

  function Transmitted(f: Frame): seq<Frame> {
    if |f.data| + 8 >= MAX_MSG then [] else [f]
  }

  /** The receive callback: a packet that is too long or finds the queue full is dropped. */
  function Arrive(env: Env, w: World): World
    requires w.air != []
  {
    var p := w.air[0];
    var w1 := w.(air := w.air[1..]);
    if |Wire(env, w.got, p).data| + 8 > MAX_MSG || QFull(w.rxq, MAX_ACTIONS) then w1
    else w1.(rxq := w.rxq + [p])
  }

  /** `buffer_msg` will get as far as taking a block that it keeps. */
  predicate WillBuffer(rx: Receiver, f: Frame, stale: leftover) {
    && f.mtype == ACTION && (WordAt(f.data + stale, 4) + 8) % WORD == |f.data| && !IsDuplicate(rx, f.seqno)
    && rx.free > 0 && |f.data| + 16 <= MAX_MSG
  }

  /** `agvcp_msg_process`, except that a command to be buffered is left between the pool and the queue. */
  function Receive(env: Env, w: World, f: Frame, stale: leftover, reading: word): World {
    if WillBuffer(w.rx, f, stale) then
      w.(rx := w.rx.(free := w.rx.free - 1), incoming := Some(f))
    else
      var r := Process(env.agvid, w.rx, f, stale, reading);
      w.(rx := r.rx, back := w.back + AsSeq(r.reply), written := w.written + AsSeq(r.write),
         accepted := w.accepted + if r.rx.rxseq != w.rx.rxseq then 1 else 0)
  }

  /** The rest of `buffer_msg` and `agvcp_msg_process`. */
  function Post(env: Env, w: World, f: Frame): World {
    var w1 := w.(incoming := None, mutex := if w.mutex == Receiving then Free else w.mutex);
    if QFull(w.rx.que, MAX_ACTIONS) then
      w1.(rx := w.rx.(free := w.rx.free + 1))
    else
      w1.(rx := w.rx.(que := w.rx.que + [f], rxseq := f.seqno),
          back := w.back + [Frame(f.mtype, f.seqno, Htonl(env.agvid))],
          accepted := w.accepted + if f.seqno != w.rx.rxseq then 1 else 0)
  }

  function Begin(w: World, owner: Owner, f: Frame, retries: nat): World {
    var w1 := w.(back := w.back + Transmitted(f));
    if f.mtype == HEARTBEAT then w1.(txseq := Next(w.txseq), sent := w.sent + [Sent(f, None)])
    else w1.(mutex := Sending(owner, f, retries))
  }

  function Succeed(w: World, p: Packet): World
    requires w.mutex.Sending?
  {
    w.(txseq := Next(w.txseq), mutex := Free,
       sent := w.sent + [Sent(w.mutex.frame, if p.Ack? then Some(p.j) else None)],
       task := if w.mutex.frame.mtype == CONFIRM && w.task.Confirming? then Confirmed(w.task.block) else w.task)
  }

  /** One poll of `wait_ack`. */
  function Polled(env: Env, w: World, stale: leftover, reading: word): World
    requires w.mutex.Sending? && w.rxq != []
  {
    var f := Wire(env, w.got, w.rxq[0]);
    var w1 := w.(rxq := w.rxq[1..]);
    if f.mtype == w.mutex.frame.mtype && f.seqno == w.mutex.frame.seqno then Succeed(w1, w.rxq[0])
    else if |f.data| > 4 && IsForUs(env.agvid, f) then Receive(env, w1, Body(f), stale, reading)
    else w1
  }

  /** The receiving part of the main loop. */
  function MainReceived(env: Env, w: World, stale: leftover, reading: word): World
    requires w.rxq != []
  {
    var f := Cut(Wire(env, w.got, w.rxq[0]));
    var w1 := w.(rxq := w.rxq[1..], task := Emptying);
    if IsForUs(env.agvid, f) then
      var w2 := Receive(env, w1, Body(f), stale, reading);
      if w2.incoming.Some? then w2.(mutex := Receiving) else w2
    else
      w1
  }

  function Hear(env: Env, w: World): World
    requires w.back != []
  {
    var f := w.back[0];
    w.(back := w.back[1..],
       cur := if w.cur < |env.msgs| && f.mtype == env.msgs[w.cur].mtype && f.seqno == env.msgs[w.cur].seqno
              then w.cur + 1 else w.cur,
       got := w.got + if IsAgvType(f.mtype) then [f] else [])
  }

  /** The head of the action queue goes into the task's hands. */
  function Take(w: World): World {
    if w.rx.que == [] then
      w.(task := Looping)
    else
      var rx := w.rx.(que := w.rx.que[1..]);
      if w.rx.que[0].mtype != ACTION then w.(rx := rx.(free := rx.free + 1))
      else w.(rx := rx, task := Confirming(w.rx.que[0]))
  }

  /** The messages that each task sends outside the drain loop. */
  predicate MaySend(w: World, owner: Owner, mtype: word) {
    match owner
    case ProtocolTask => w.task == Looping && mtype in {REGISTER, UNREGISTER, HEARTBEAT}
    case VehicleTask => mtype in {ERROR_REPORT, ACTION_OVER, REPORT_FLAGPOINT}
  }

  function Apply(env: Env, w: World, step: Step): World {
    match step
    case CtlSend => if w.cur < |env.msgs| then w.(air := w.air + [Msg(w.cur)]) else w
    case CtlHear => if w.back != [] then Hear(env, w) else w
    case CtlAck(j, data) => if j < |w.got| then w.(air := w.air + [Ack(j, data)]) else w
    case Lose(k) => if k < |w.air| then w.(air := Without(w.air, k)) else w
    case Duplicate(k) => if k < |w.air| then w.(air := Repeated(w.air, k)) else w
    case LoseBack(k) => if k < |w.back| then w.(back := Without(w.back, k)) else w
    case DuplicateBack(k) => if k < |w.back| then w.(back := Repeated(w.back, k)) else w
    case Deliver => if w.air != [] then Arrive(env, w) else w
    case StartSend(owner, mtype, data, retries) =>
      if w.mutex == Free && MaySend(w, owner, mtype)
      then Begin(w, owner, Frame(mtype, w.txseq, data), retries) else w
    case Retry =>
      if w.mutex.Sending? && w.incoming == None && w.mutex.retries != 1
      then w.(back := w.back + Transmitted(w.mutex.frame),
              mutex := w.mutex.(retries := if w.mutex.retries == 0 then 0 else w.mutex.retries - 1)) else w
    case GiveUp =>
      if w.mutex.Sending? && w.incoming == None && w.mutex.retries == 1
      then w.(mutex := Free, failed := w.failed + [w.mutex.frame]) else w
    case PollRx(stale, reading) =>
      if w.mutex.Sending? && w.incoming == None && w.rxq != [] then Polled(env, w, stale, reading) else w
    case MainRx(stale, reading) =>
      if w.mutex == Free && w.task == Looping && w.rxq != [] then MainReceived(env, w, stale, reading) else w
    case Commit => if w.incoming.Some? then Post(env, w, w.incoming.value) else w
    case StartDrain =>
      if w.task == Looping && !(w.mutex.Sending? && w.mutex.owner == ProtocolTask)
      then w.(task := Emptying) else w
    case TakeBlock => if w.task == Emptying && w.mutex != Receiving then Take(w) else w
    case StartConfirm =>
      if w.mutex == Free && w.task.Confirming?
      then Begin(w, ProtocolTask, Confirmation(env.agvid, w.txseq, w.task.block), 0) else w
    case Dispatch =>
      if w.task.Confirmed?
      then w.(dispatched := w.dispatched + [w.task.block], rx := w.rx.(free := w.rx.free + 1), task := Emptying)
      else w
  }

  function Run(env: Env, w: World, steps: seq<Step>, n: nat): World
    requires n <= |steps|
  {
    if n == 0 then w else Apply(env, Run(env, w, steps, n - 1), steps[n - 1])
  }

  /** Taking the block and posting it, with nothing in between, is `agvcp_msg_process`. */
  lemma SplitIsProcess(env: Env, w: World, f: Frame, stale: leftover, reading: word)
    requires w.incoming == None
    ensures var r := Process(env.agvid, w.rx, f, stale, reading);
            var w1 := Receive(env, w, f, stale, reading);
            var w2 := if w1.incoming.Some? then Post(env, w1, w1.incoming.value) else w1;
            w2.rx == r.rx && w2.back == w.back + AsSeq(r.reply) && w2.written == w.written + AsSeq(r.write)
            && w2.incoming == None
  {
  }

  /** The environment may at any time send the current message, lose or double any packet in either direction,
      and acknowledge any frame that it got, and no other. */
  lemma EnvironmentIsFree(env: Env, w: World, k: nat, data: seq<byte>)
    ensures w.cur < |env.msgs| ==> Apply(env, w, CtlSend) == w.(air := w.air + [Msg(w.cur)])
    ensures k < |w.air| ==>
              && Apply(env, w, Lose(k)) == w.(air := w.air[..k] + w.air[k + 1..])
              && Apply(env, w, Duplicate(k)) == w.(air := w.air[..k] + [w.air[k], w.air[k]] + w.air[k + 1..])
    ensures k < |w.back| ==>
              && Apply(env, w, LoseBack(k)) == w.(back := w.back[..k] + w.back[k + 1..])
              && Apply(env, w, DuplicateBack(k)) == w.(back := w.back[..k] + [w.back[k], w.back[k]] + w.back[k + 1..])
    ensures Apply(env, w, CtlAck(k, data)) == if k < |w.got| then w.(air := w.air + [Ack(k, data)]) else w
  {
    if k < |w.air| {
      TwiceIn(w.air, k);
    }
    if k < |w.back| {
      TwiceIn(w.back, k);
    }
  }

  lemma TwiceIn<T>(s: seq<T>, k: nat)
    requires k < |s|
    ensures Repeated(s, k) == s[..k] + [s[k], s[k]] + s[k + 1..]
  {
  }

  /** A packet that arrives joins the receive queue exactly when it has at most 512 octets and fewer than four
      are waiting; otherwise it is gone. */
  lemma ArrivesExactly(env: Env, w: World)
    requires w.air != []
    ensures var w1, p := Apply(env, w, Deliver), w.air[0];
            && w1 == w.(air := w.air[1..], rxq := w1.rxq)
            && w1.rxq == if 8 + |Wire(env, w.got, p).data| <= 512 && |w.rxq| < 4 then w.rxq + [p] else w.rxq
  {
  }

  /** So no more than four ever wait. */
  lemma {:induction false} FewPacketsWait(env: Env, steps: seq<Step>, n: nat)
    requires n <= |steps|
    ensures |Run(env, Initial(), steps, n).rxq| <= 4
  {
    if n > 0 {
      FewPacketsWait(env, steps, n - 1);
      StepKeepsFew(env, Run(env, Initial(), steps, n - 1), steps[n - 1]);
    }
  }

  lemma StepKeepsFew(env: Env, w: World, step: Step)
    requires |w.rxq| <= 4
    ensures |Apply(env, w, step).rxq| <= 4
  {
  }

  // ------------------------------------------------ what was promised

  /** The commands among the first n controller messages, as the queue holds them. */
  function Actions(env: Env, n: nat): seq<Frame> {
    if n == 0 || n > |env.msgs| then []
    else
      var m := env.msgs[n - 1];
      Actions(env, n - 1) + if m.mtype == ACTION && |m.data| >= 4 then [Body(m)] else []
  }

  /** The parameter writes among the first n controller messages. */
  function Writes(env: Env, n: nat): seq<(word, word)> {
    if n == 0 || n > |env.msgs| then []
    else
      var m := env.msgs[n - 1];
      Writes(env, n - 1)
      + if m.mtype == WRITE_PARAM && |m.data| >= 12 then [(WordAt(m.data, 4), WordAt(m.data, 8))] else []
  }

  /** The block that the protocol task has in hand and not yet dispatched. */
  function InHand(t: Task): seq<Frame> {
    if t.Confirming? || t.Confirmed? then [t.block] else []
  }

  /** The receiving direction: exactly once, in order. */
  predicate Delivery(env: Env, w: World) {
    && w.cur <= w.accepted <= w.cur + 1 && w.accepted <= |env.msgs|
    && w.dispatched + InHand(w.task) + w.rx.que == Actions(env, w.accepted)
    && w.written == Writes(env, w.accepted)
  }

  // ------------------------------------------------ mutex and pool

  /** A command is buffered only by the holder of the mutex, and the protocol task confirms the block in
      its hands with the unlimited number of retries. */
  predicate Discipline(env: Env, w: World) {
    && (w.incoming.Some? ==> w.mutex != Free)
    && (w.mutex == Receiving ==> w.incoming.Some? && w.task == Emptying)
    && (w.mutex.Sending? && w.mutex.owner == ProtocolTask ==> w.task == Looping || w.task.Confirming?)
    && (w.mutex.Sending? ==> IsAgvType(w.mutex.frame.mtype) && w.mutex.frame.mtype != HEARTBEAT)
    && (w.mutex.Sending? && w.mutex.frame.mtype == CONFIRM ==>
          w.mutex.retries == 0 && w.task.Confirming? && w.mutex.frame.data == ConfirmData(env.agvid, w.task.block))
  }

  lemma StepKeepsDiscipline(env: Env, w: World, step: Step)
    requires Discipline(env, w)
    ensures Discipline(env, Apply(env, w, step))
  {
  }

  /** Every block of the action pool is free, queued, in hand, or being filled. */
  predicate PoolKept(w: World) {
    w.rx.free + |w.rx.que| + |InHand(w.task)| + |AsSeq(w.incoming)| == MAX_ACTIONS
  }

  lemma ReceiveKeepsPool(env: Env, w: World, f: Frame, stale: leftover, reading: word)
    requires PoolKept(w) && w.incoming == None
    ensures PoolKept(Receive(env, w, f, stale, reading))
    ensures Receive(env, w, f, stale, reading).task == w.task
  {
  }

  lemma StepKeepsPool(env: Env, w: World, step: Step)
    requires PoolKept(w) && Discipline(env, w)
    ensures PoolKept(Apply(env, w, step))
  {
    if step.PollRx? && w.mutex.Sending? && w.incoming == None && w.rxq != [] {
      var f := Wire(env, w.got, w.rxq[0]);
      if |f.data| > 4 {
        ReceiveKeepsPool(env, w.(rxq := w.rxq[1..]), Body(f), step.stale, step.reading);
      }
    } else if step.MainRx? && w.mutex == Free && w.task == Looping && w.rxq != [] {
      var f := Cut(Wire(env, w.got, w.rxq[0]));
      if |f.data| >= 4 {
        ReceiveKeepsPool(env, w.(rxq := w.rxq[1..], task := Emptying), Body(f), step.stale, step.reading);
      }
    }
  }

  /** A command whose block was obtained is never refused by the queue. */
  lemma PostSucceeds(w: World)
    requires PoolKept(w) && w.incoming.Some?
    ensures !QFull(w.rx.que, MAX_ACTIONS)
  {
  }
}
