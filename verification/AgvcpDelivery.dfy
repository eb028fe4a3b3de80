/** From the controller to the AGV: over every run of the protocol, commands are delivered exactly once
    and in order, and parameters written exactly once and in order.
  */
module AgvcpDelivery {
  import opened Arithmetic
  import opened LibMem
  import opened OsKernel
  import opened AgvcpFrame
  import opened Agvcp
  import opened AgvcpProtocol
  import opened AgvcpAnswers

  // ------------------------------------------------ packets on the way

  /** Controller messages on the line have positions between lo and hi, in order. */
  ghost predicate LineOk(line: seq<Packet>, lo: int, hi: int) {
    && (forall k :: 0 <= k < |line| && line[k].Msg? ==> lo <= line[k].i <= hi)
    && (forall k, l :: 0 <= k < l < |line| && line[k].Msg? && line[l].Msg? ==> line[k].i <= line[l].i)
  }

  lemma LineWithout(line: seq<Packet>, k: nat, lo: int, hi: int)
    requires LineOk(line, lo, hi) && k < |line|
    ensures LineOk(Without(line, k), lo, hi)
  {
    var s := Without(line, k);
    forall i | 0 <= i < |s| ensures s[i] == if i < k then line[i] else line[i + 1] {
    }
  }

  lemma LineRepeated(line: seq<Packet>, k: nat, lo: int, hi: int)
    requires LineOk(line, lo, hi) && k < |line|
    ensures LineOk(Repeated(line, k), lo, hi)
  {
    var s := Repeated(line, k);
    forall i | 0 <= i < |s| ensures s[i] == if i <= k then line[i] else line[i - 1] {
    }
  }

  lemma LineAppend(line: seq<Packet>, p: Packet, lo: int, hi: int)
    requires LineOk(line, lo, hi) && (p.Msg? ==> p.i == hi && lo <= hi)
    ensures LineOk(line + [p], lo, hi)
  {
  }

  /** Behind a message there are no earlier ones. */
  lemma LineTail(line: seq<Packet>, lo: int, hi: int)
    requires LineOk(line, lo, hi) && line != []
    ensures LineOk(line[1..], if line[0].Msg? then line[0].i else lo, hi)
  {
  }

  // ------------------------------------------------ the invariant

  /** Everything that has left the network and is still to be looked at. */
  function LineOf(w: World): seq<Packet> { w.rxq + w.air }

  /** The last accepted message's sequence number. */
  ghost predicate RxseqOk(env: Env, w: World) {
    && w.accepted <= |env.msgs|
    && w.rx.rxseq == if w.accepted == 0 then 0xFFFF_FFFF else env.msgs[w.accepted - 1].seqno
  }

  ghost predicate IncomingOk(env: Env, w: World) {
    w.incoming.Some? ==>
      && w.accepted == w.cur < |env.msgs| && env.msgs[w.cur].mtype == ACTION && |env.msgs[w.cur].data| >= 4
      && w.incoming.value == Body(env.msgs[w.cur])
  }

  /** An answer to one of the first n messages. */
  ghost predicate IsTrueAnswer(env: Env, n: nat, f: Frame)
    requires n <= |env.msgs|
  {
    exists i: nat, reading: word :: i < n && IsReply(env.agvid, f, env.msgs[i], reading)
  }

  /** The controller is answered only for what was accepted. */
  ghost predicate BackOk(env: Env, w: World)
    requires w.accepted <= |env.msgs|
  {
    forall f :: f in w.back && !IsAgvType(f.mtype) ==> IsTrueAnswer(env, w.accepted, f)
  }

  /** Only messages for this vehicle are accepted. */
  ghost predicate Addressed(env: Env, w: World)
    requires w.accepted <= |env.msgs|
  {
    && (forall i :: 0 <= i < w.accepted ==> IsForUs(env.agvid, env.msgs[i]))
    && (w.incoming.Some? && w.cur < |env.msgs| ==> IsForUs(env.agvid, env.msgs[w.cur]))
  }

  function Floor(w: World): int { if w.incoming.Some? then w.accepted else w.accepted - 1 }

  ghost predicate RxInv(env: Env, w: World) {
    && Delivery(env, w) && RxseqOk(env, w) && IncomingOk(env, w) && BackOk(env, w) && Addressed(env, w)
    && LineOk(LineOf(w), Floor(w), if w.cur < |env.msgs| then w.cur else |env.msgs| - 1)
    && (forall k :: 0 <= k < |w.rx.que| ==> w.rx.que[k].mtype == ACTION)
    && (forall k :: 0 <= k < |w.got| ==> IsAgvType(w.got[k].mtype))
  }

  // ------------------------------------------------ receiving one message

  /** The fixed fields survive the main loop's shorter buffer, and do not depend on what it held before. */
  lemma BodyWords(m: Frame, f: Frame, stale: leftover)
    requires |m.data| >= 12 && (f == Body(m) || f == Body(Cut(m)))
    ensures |f.data| >= 8
    ensures WordAt(f.data + stale, 0) == WordAt(m.data, 4)
    ensures WordAt(f.data + stale, 4) == WordAt(m.data, 8)
  {
    var buf := f.data + stale;
    assert forall k :: 0 <= k < 8 ==> buf[k] == f.data[k] == m.data[4 + k];
    SameWord(buf, 0, m.data, 4);
    SameWord(buf, 4, m.data, 8);
  }

  lemma SameWord(s: seq<byte>, i: nat, t: seq<byte>, j: nat)
    requires i + 4 <= |s| && j + 4 <= |t|
    requires s[i] == t[j] && s[i + 1] == t[j + 1] && s[i + 2] == t[j + 2] && s[i + 3] == t[j + 3]
    ensures WordAt(s, i) == WordAt(t, j)
  {
    assert s[i..i + 4] == [s[i], s[i + 1], s[i + 2], s[i + 3]] == t[j..j + 4];
  }

  /** A command whose length agrees has not been cut. */
  lemma LengthTells(m: Frame, f: Frame, stale: leftover)
    requires WellFormed(m) && m.mtype == ACTION && (f == Body(m) || f == Body(Cut(m)))
    ensures (WordAt(f.data + stale, 4) + 8) % WORD == |f.data| ==> f == Body(m)
  {
    BodyWords(m, f, stale);
    var declared := WordAt(m.data, 8) as int;
    if |m.data| > MAIN_BUFFER && f == Body(Cut(m)) {
      assert |f.data| == MAIN_BUFFER - 4;
      assert declared + 8 > |f.data|;
    }
  }

  /** In the main loop the length of a command agrees exactly when its payload fits the loop's buffer. */
  lemma LengthAgrees(m: Frame, stale: leftover)
    requires WellFormed(m) && m.mtype == ACTION
    ensures |Body(Cut(m)).data| >= 8
    ensures (WordAt(Body(Cut(m)).data + stale, 4) + 8) % WORD == |Body(Cut(m)).data| <==> |m.data| <= MAIN_BUFFER
  {
    BodyWords(m, Body(Cut(m)), stale);
  }

  /** A command that the main loop reads is ignored altogether if its payload is longer than the loop's
      buffer. If not, and it is new, it takes a block as soon as one is free. */
  lemma CommandInMainLoop(env: Env, w: World, m: Frame, stale: leftover, reading: word)
    requires WellFormed(m) && m.mtype == ACTION
    ensures var w1 := Receive(env, w, Body(Cut(m)), stale, reading);
            && (|m.data| > MAIN_BUFFER ==> w1 == w)
            && (|m.data| <= MAIN_BUFFER && !IsDuplicate(w.rx, m.seqno) && w.rx.free > 0 ==>
                  w1 == w.(rx := w.rx.(free := w.rx.free - 1), incoming := Some(Body(m))))
  {
    LengthAgrees(m, stale);
  }

  /** One that arrives while the AGV waits for an acknowledgement, and that is new, takes a block exactly
      when one is free and it fits the block. */
  lemma CommandDuringWait(env: Env, w: World, m: Frame, stale: leftover, reading: word)
    requires WellFormed(m) && m.mtype == ACTION && |m.data| + 8 <= MAX_MSG
    requires !IsDuplicate(w.rx, m.seqno) && w.incoming == None
    ensures var w1 := Receive(env, w, Body(m), stale, reading);
            && (w1.incoming == Some(Body(m)) <==> w.rx.free > 0 && |m.data| + 12 <= MAX_MSG)
            && (w1.incoming == None ==> w1 == w)
  {
    BodyWords(m, Body(m), stale);
  }

  /** A message that is nothing but a name is dropped while the AGV waits for an acknowledgement of another. */
  lemma BareNameDuringWait(env: Env, w: World, stale: leftover, reading: word)
    requires w.mutex.Sending? && w.rxq != []
    requires var f := Wire(env, w.got, w.rxq[0]);
             |f.data| == 4 && !(f.mtype == w.mutex.frame.mtype && f.seqno == w.mutex.frame.seqno)
    ensures Polled(env, w, stale, reading) == w.(rxq := w.rxq[1..])
  {
  }

  /** A repeated message changes nothing on the AGV; it may be answered again. */
  lemma DuplicateReaction(env: Env, w: World, m: Frame, f: Frame, stale: leftover, reading: word) returns (reply: Frame)
    requires WellFormed(m) && (f == Body(m) || f == Body(Cut(m))) && m.seqno == w.rx.rxseq
    ensures IsReply(env.agvid, reply, m, reading)
    ensures var w1 := Receive(env, w, f, stale, reading); w1 == w || w1 == w.(back := w.back + [reply])
  {
    var r := Process(env.agvid, w.rx, f, stale, reading);
    assert IsDuplicate(w.rx, f.seqno);
    assert r.rx == w.rx && r.write == None;
    if r.reply.Some? {
      reply := r.reply.value;
      AnswerSays(env.agvid, w.rx, f, stale, reading);
      AnswersMessage(env.agvid, reply, m, f, stale, reading);
    } else {
      reply := Frame(m.mtype, m.seqno, Htonl(env.agvid));
      PlainReply(env.agvid, m, reading);
    }
  }

  /** A new message is refused without a trace, leaves a block to be posted, or is accepted. */
  lemma FreshReaction(env: Env, w: World, m: Frame, f: Frame, stale: leftover, reading: word) returns (reply: Frame)
    requires WellFormed(m) && (f == Body(m) || f == Body(Cut(m))) && m.seqno != w.rx.rxseq
    ensures IsReply(env.agvid, reply, m, reading)
    ensures var w1 := Receive(env, w, f, stale, reading);
            || w1 == w
            || (m.mtype == ACTION && w.rx.free > 0
                && w1 == w.(rx := w.rx.(free := w.rx.free - 1), incoming := Some(Body(m))))
            || (m.mtype != ACTION
                && w1 == w.(rx := w.rx.(rxseq := m.seqno), back := w.back + [reply], accepted := w.accepted + 1,
                            written := w.written + if m.mtype == WRITE_PARAM
                                                   then [(WordAt(m.data, 4), WordAt(m.data, 8))] else []))
  {
    if m.mtype == WRITE_PARAM || m.mtype == READ_PARAM {
      if m.mtype == WRITE_PARAM {
        BodyWords(m, f, stale);
      }
      reply := Process(env.agvid, w.rx, f, stale, reading).reply.value;
      AnswerSays(env.agvid, w.rx, f, stale, reading);
      AnswersMessage(env.agvid, reply, m, f, stale, reading);
    } else {
      if m.mtype == ACTION {
        LengthTells(m, f, stale);
      }
      reply := Frame(m.mtype, m.seqno, Htonl(env.agvid));
      PlainReply(env.agvid, m, reading);
    }
  }

  lemma BackAppend(env: Env, w: World, w1: World, r: Frame)
    requires w.accepted <= w1.accepted <= |env.msgs| && Honest(env) && BackOk(env, w)
    requires w1.back == w.back + [r]
    requires !IsAgvType(r.mtype) ==> IsTrueAnswer(env, w1.accepted, r)
    ensures BackOk(env, w1)
  {
    forall f | f in w.back && !IsAgvType(f.mtype) ensures IsTrueAnswer(env, w1.accepted, f) {
      var i: nat, reading: word :| i < w.accepted && IsReply(env.agvid, f, env.msgs[i], reading);
    }
  }

  /** Handling a repeated message keeps the invariant. */
  lemma ReceiveDuplicate(env: Env, w: World, f: Frame, stale: leftover, reading: word)
    requires Honest(env) && RxInv(env, w) && w.accepted > 0
    requires var m := env.msgs[w.accepted - 1]; f == Body(m) || f == Body(Cut(m))
    ensures RxInv(env, Receive(env, w, f, stale, reading))
  {
    var m := env.msgs[w.accepted - 1];
    var reply := DuplicateReaction(env, w, m, f, stale, reading);
    assert IsTrueAnswer(env, w.accepted, reply);
    BackAppend(env, w, w.(back := w.back + [reply]), reply);
  }

  /** The state is one in which the controller's current message m is new. */
  ghost predicate Expects(env: Env, w: World, m: Frame) {
    && w.incoming == None && w.accepted == w.cur < |env.msgs| && m == env.msgs[w.cur]
    && LineOk(LineOf(w), w.cur, w.cur)
  }

  lemma TakenKeepsRx(env: Env, w: World, m: Frame)
    requires RxInv(env, w) && Expects(env, w, m) && IsForUs(env.agvid, m)
    requires m.mtype == ACTION && w.rx.free > 0
    ensures RxInv(env, w.(rx := w.rx.(free := w.rx.free - 1), incoming := Some(Body(m))))
  {
  }

  lemma AcceptedKeepsRx(env: Env, w: World, w1: World, m: Frame, reply: Frame, reading: word)
    requires Honest(env) && RxInv(env, w) && Expects(env, w, m) && IsForUs(env.agvid, m)
    requires m.mtype != ACTION && IsReply(env.agvid, reply, m, reading)
    requires w1 == w.(rx := w.rx.(rxseq := m.seqno), back := w.back + [reply], accepted := w.accepted + 1,
                      written := w.written + if m.mtype == WRITE_PARAM
                                             then [(WordAt(m.data, 4), WordAt(m.data, 8))] else [])
    ensures RxInv(env, w1)
  {
    assert IsReply(env.agvid, reply, env.msgs[w.cur], reading);
    assert IsTrueAnswer(env, w1.accepted, reply);
    BackAppend(env, w, w1, reply);
    assert Actions(env, w1.accepted) == Actions(env, w.accepted) + [];
  }

  /** Handling a new message keeps it. */
  lemma ReceiveFresh(env: Env, w: World, f: Frame, stale: leftover, reading: word)
    requires Honest(env) && RxInv(env, w) && w.cur < |env.msgs| && Expects(env, w, env.msgs[w.cur])
    requires IsForUs(env.agvid, env.msgs[w.cur])
    requires var m := env.msgs[w.cur]; f == Body(m) || f == Body(Cut(m))
    ensures RxInv(env, Receive(env, w, f, stale, reading))
  {
    var m := env.msgs[w.cur];
    assert w.accepted > 0 ==> env.msgs[w.accepted - 1].seqno < m.seqno;
    var reply := FreshReaction(env, w, m, f, stale, reading);
    var w1 := Receive(env, w, f, stale, reading);
    if m.mtype == ACTION && w1.incoming.Some? {
      TakenKeepsRx(env, w, m);
    } else if w1.accepted > w.accepted {
      AcceptedKeepsRx(env, w, w1, m, reply, reading);
    }
  }

  /** An acknowledgement that nobody waits for has no effect. */
  lemma ReceiveStrayAck(env: Env, w: World, f: Frame, stale: leftover, reading: word)
    requires IsAgvType(f.mtype)
    ensures Receive(env, w, f, stale, reading) == w
  {
  }

  // ------------------------------------------------ the steps

  function Ceiling(env: Env, w: World): int { if w.cur < |env.msgs| then w.cur else |env.msgs| - 1 }

  /** The invariant without the network: what a step that only moves packets has to keep. */
  lemma SameLine(env: Env, w: World, w1: World)
    requires RxInv(env, w) && w1 == w.(air := w1.air, rxq := w1.rxq)
    requires LineOk(LineOf(w1), Floor(w), Ceiling(env, w))
    ensures RxInv(env, w1)
  {
  }

  lemma LineJoins(a: seq<Packet>, b: seq<Packet>, p: Packet)
    ensures a + (b + [p]) == (a + b) + [p]
    ensures b != [] ==> (a + [b[0]]) + b[1..] == a + b && a + b[1..] == Without(a + b, |a|)
  {
  }

  lemma JoinWithout(a: seq<Packet>, b: seq<Packet>, k: nat)
    requires k < |b|
    ensures a + Without(b, k) == Without(a + b, |a| + k)
  {
  }

  lemma JoinRepeated(a: seq<Packet>, b: seq<Packet>, k: nat)
    requires k < |b|
    ensures a + Repeated(b, k) == Repeated(a + b, |a| + k)
  {
  }

  lemma AppendKeepsRx(env: Env, w: World, p: Packet)
    requires RxInv(env, w) && (p.Msg? ==> p.i == w.cur < |env.msgs|)
    ensures RxInv(env, w.(air := w.air + [p]))
  {
    LineJoins(w.rxq, w.air, p);
    LineAppend(LineOf(w), p, Floor(w), Ceiling(env, w));
    SameLine(env, w, w.(air := w.air + [p]));
  }

  lemma LoseKeepsRx(env: Env, w: World, k: nat)
    requires RxInv(env, w) && k < |w.air|
    ensures RxInv(env, w.(air := Without(w.air, k)))
  {
    JoinWithout(w.rxq, w.air, k);
    LineWithout(LineOf(w), |w.rxq| + k, Floor(w), Ceiling(env, w));
    SameLine(env, w, w.(air := Without(w.air, k)));
  }

  lemma DuplicateKeepsRx(env: Env, w: World, k: nat)
    requires RxInv(env, w) && k < |w.air|
    ensures RxInv(env, w.(air := Repeated(w.air, k)))
  {
    JoinRepeated(w.rxq, w.air, k);
    LineRepeated(LineOf(w), |w.rxq| + k, Floor(w), Ceiling(env, w));
    SameLine(env, w, w.(air := Repeated(w.air, k)));
  }

  lemma DeliverKeepsRx(env: Env, w: World)
    requires RxInv(env, w) && w.air != []
    ensures RxInv(env, Arrive(env, w))
  {
    LineJoins(w.rxq, w.air, w.air[0]);
    LineWithout(LineOf(w), |w.rxq|, Floor(w), Ceiling(env, w));
    SameLine(env, w, Arrive(env, w));
  }

  lemma AnsweredIsAccepted(env: Env, w: World, f: Frame)
    requires Honest(env) && w.accepted <= |env.msgs| && BackOk(env, w) && f in w.back && w.cur < |env.msgs|
    requires f.mtype == env.msgs[w.cur].mtype && f.seqno == env.msgs[w.cur].seqno
    ensures w.cur < w.accepted
  {
    assert WellFormed(env.msgs[w.cur]);
    var i: nat, reading: word :| i < w.accepted && IsReply(env.agvid, f, env.msgs[i], reading);
    assert i == w.cur;
  }

  /** The controller moves on only past an accepted message. */
  lemma HearKeepsRx(env: Env, w: World)
    requires Honest(env) && RxInv(env, w) && w.back != []
    ensures RxInv(env, Hear(env, w))
  {
    var f := w.back[0];
    if w.cur < |env.msgs| && f.mtype == env.msgs[w.cur].mtype && f.seqno == env.msgs[w.cur].seqno {
      AnsweredIsAccepted(env, w, f);
    }
  }

  lemma Survivors<T>(s: seq<T>, k: nat)
    requires k < |s|
    ensures forall x :: x in Without(s, k) ==> x in s
    ensures forall x :: x in Repeated(s, k) ==> x in s
  {
  }

  lemma BackKeepsRx(env: Env, w: World, back: seq<Frame>)
    requires RxInv(env, w) && forall f :: f in back ==> f in w.back || IsAgvType(f.mtype)
    ensures RxInv(env, w.(back := back))
  {
  }

  /** Sending state and its history play no part in receiving. */
  lemma SendingIsApart(env: Env, w: World, w1: World)
    requires RxInv(env, w) && InHand(w1.task) == InHand(w.task)
    requires w1 == w.(mutex := w1.mutex, txseq := w1.txseq, task := w1.task, sent := w1.sent, failed := w1.failed)
    ensures RxInv(env, w1)
  {
  }

  lemma BeginKeepsRx(env: Env, w: World, owner: Owner, f: Frame, retries: nat)
    requires RxInv(env, w) && IsAgvType(f.mtype)
    ensures RxInv(env, Begin(w, owner, f, retries))
  {
    BackKeepsRx(env, w, w.back + Transmitted(f));
    SendingIsApart(env, w.(back := w.back + Transmitted(f)), Begin(w, owner, f, retries));
  }

  lemma RetryKeepsRx(env: Env, w: World)
    requires RxInv(env, w) && w.mutex.Sending? && IsAgvType(w.mutex.frame.mtype)
    ensures RxInv(env, Apply(env, w, Retry))
  {
    var w1 := w.(back := w.back + Transmitted(w.mutex.frame));
    BackKeepsRx(env, w, w1.back);
    if w.incoming == None && w.mutex.retries != 1 {
      SendingIsApart(env, w1, Apply(env, w, Retry));
    }
  }

  lemma TakeKeepsRx(env: Env, w: World)
    requires RxInv(env, w) && w.task == Emptying
    ensures RxInv(env, Take(w))
  {
    if w.rx.que != [] {
      assert w.rx.que == [w.rx.que[0]] + w.rx.que[1..];
      Shift(w.dispatched, [], [w.rx.que[0]], w.rx.que[1..]);
      assert w.rx.que[0].mtype == ACTION;
    }
  }

  lemma DispatchKeepsRx(env: Env, w: World)
    requires RxInv(env, w) && w.task.Confirmed?
    ensures RxInv(env, Apply(env, w, Dispatch))
  {
    Shift(w.dispatched, [w.task.block], [], w.rx.que);
  }

  lemma Shift(a: seq<Frame>, b: seq<Frame>, c: seq<Frame>, d: seq<Frame>)
    ensures a + b + (c + d) == a + (b + c) + d == (a + b) + c + d
  {
  }

  lemma CommitKeepsRx(env: Env, w: World)
    requires Honest(env) && RxInv(env, w) && PoolKept(w) && w.incoming.Some?
    ensures RxInv(env, Post(env, w, w.incoming.value))
  {
    PostSucceeds(w);
    var f := w.incoming.value;
    var w1 := Post(env, w, f);
    assert w.accepted > 0 ==> env.msgs[w.accepted - 1].seqno < f.seqno;
    PlainReply(env.agvid, env.msgs[w.cur], 0);
    assert IsTrueAnswer(env, w1.accepted, w1.back[|w.back|]);
    BackAppend(env, w, w1, w1.back[|w.back|]);
    assert w1.dispatched + InHand(w1.task) + w1.rx.que == w.dispatched + InHand(w.task) + w.rx.que + [f];
  }

  /** Taking the packet at the head of the receive queue. */
  lemma PopKeepsRx(env: Env, w: World, w1: World)
    requires RxInv(env, w) && w.rxq != []
    requires w1 == w.(rxq := w.rxq[1..], task := w1.task) && InHand(w1.task) == InHand(w.task)
    ensures RxInv(env, w1)
    ensures var p := w.rxq[0];
            p.Msg? ==> LineOk(LineOf(w1), p.i, Ceiling(env, w)) && Floor(w) <= p.i <= Ceiling(env, w)
  {
    LineTail(LineOf(w), Floor(w), Ceiling(env, w));
    assert LineOf(w1) == LineOf(w)[1..];
    assert LineOf(w)[0] == w.rxq[0];
    SameLine(env, w, w.(rxq := w1.rxq));
    SendingIsApart(env, w.(rxq := w1.rxq), w1);
  }

  lemma CutKeepsName(agvid: word, m: Frame)
    requires IsForUs(agvid, Cut(m))
    ensures IsForUs(agvid, m)
  {
    assert Cut(m).data[0..4] == m.data[0..4];
  }

  /** Handling it, whichever task has read it. */
  lemma HandleKeepsRx(env: Env, w: World, p: Packet, f: Frame, stale: leftover, reading: word)
    requires Honest(env) && RxInv(env, w) && w.incoming == None
    requires p.Msg? ==> LineOk(LineOf(w), p.i, Ceiling(env, w)) && Floor(w) <= p.i <= Ceiling(env, w)
    requires (f == Wire(env, w.got, p) || f == Cut(Wire(env, w.got, p))) && IsForUs(env.agvid, f)
    ensures RxInv(env, Receive(env, w, Body(f), stale, reading))
  {
    match p
    case Msg(i) =>
      if i < w.accepted {
        ReceiveDuplicate(env, w, Body(f), stale, reading);
      } else {
        if f == Cut(Wire(env, w.got, p)) {
          CutKeepsName(env.agvid, Wire(env, w.got, p));
        }
        ReceiveFresh(env, w, Body(f), stale, reading);
      }
    case Ack(j, data) =>
      ReceiveStrayAck(env, w, Body(f), stale, reading);
  }

  lemma PollKeepsRx(env: Env, w: World, stale: leftover, reading: word)
    requires Honest(env) && RxInv(env, w) && w.mutex.Sending? && w.incoming == None && w.rxq != []
    ensures RxInv(env, Polled(env, w, stale, reading))
  {
    var w1 := w.(rxq := w.rxq[1..]);
    PopKeepsRx(env, w, w1);
    var f := Wire(env, w.got, w.rxq[0]);
    if f.mtype == w.mutex.frame.mtype && f.seqno == w.mutex.frame.seqno {
      SendingIsApart(env, w1, Succeed(w1, w.rxq[0]));
    } else if |f.data| > 4 && IsForUs(env.agvid, f) {
      HandleKeepsRx(env, w1, w.rxq[0], f, stale, reading);
    }
  }

  lemma MainKeepsRx(env: Env, w: World, stale: leftover, reading: word)
    requires Honest(env) && RxInv(env, w) && w.task == Looping && w.incoming == None && w.rxq != []
    ensures RxInv(env, MainReceived(env, w, stale, reading))
  {
    var w1 := w.(rxq := w.rxq[1..], task := Emptying);
    PopKeepsRx(env, w, w1);
    var f := Cut(Wire(env, w.got, w.rxq[0]));
    if IsForUs(env.agvid, f) {
      HandleKeepsRx(env, w1, w.rxq[0], f, stale, reading);
      var w2 := Receive(env, w1, Body(f), stale, reading);
      SendingIsApart(env, w2, w2.(mutex := Receiving));
    }
  }

  /** Steps of the network and the controller. */
  predicate IsOutside(step: Step) {
    step.CtlSend? || step.CtlHear? || step.CtlAck? || step.Lose? || step.Duplicate? || step.LoseBack?
    || step.DuplicateBack? || step.Deliver?
  }

  lemma OutsideKeepsRx(env: Env, w: World, step: Step)
    requires Honest(env) && RxInv(env, w) && IsOutside(step)
    ensures RxInv(env, Apply(env, w, step))
  {
    if Apply(env, w, step) == w {
      return;
    }
    match step
    case CtlSend => AppendKeepsRx(env, w, Msg(w.cur));
    case CtlHear => HearKeepsRx(env, w);
    case CtlAck(j, data) => AppendKeepsRx(env, w, Ack(j, data));
    case Lose(k) => LoseKeepsRx(env, w, k);
    case Duplicate(k) => DuplicateKeepsRx(env, w, k);
    case Deliver => DeliverKeepsRx(env, w);
    case LoseBack(k) => Survivors(w.back, k); BackKeepsRx(env, w, Without(w.back, k));
    case DuplicateBack(k) => Survivors(w.back, k); BackKeepsRx(env, w, Repeated(w.back, k));
  }

  /** Steps of the AGV's tasks. */
  lemma InsideKeepsRx(env: Env, w: World, step: Step)
    requires Honest(env) && RxInv(env, w) && Discipline(env, w) && PoolKept(w)
    requires !IsOutside(step) && Apply(env, w, step) != w
    ensures RxInv(env, Apply(env, w, step))
  {
    match step
    case StartSend(owner, mtype, data, retries) =>
      BeginKeepsRx(env, w, owner, Frame(mtype, w.txseq, data), retries);
    case Retry => RetryKeepsRx(env, w);
    case GiveUp => SendingIsApart(env, w, Apply(env, w, step));
    case PollRx(stale, reading) => PollKeepsRx(env, w, stale, reading);
    case MainRx(stale, reading) => MainKeepsRx(env, w, stale, reading);
    case Commit => CommitKeepsRx(env, w);
    case StartDrain => SendingIsApart(env, w, Apply(env, w, step));
    case TakeBlock => TakeKeepsRx(env, w);
    case StartConfirm =>
      BeginKeepsRx(env, w, ProtocolTask, Confirmation(env.agvid, w.txseq, w.task.block), 0);
    case Dispatch => DispatchKeepsRx(env, w);
  }

  lemma StepKeepsRx(env: Env, w: World, step: Step)
    requires Honest(env) && RxInv(env, w) && Discipline(env, w) && PoolKept(w)
    ensures RxInv(env, Apply(env, w, step))
  {
    if IsOutside(step) {
      OutsideKeepsRx(env, w, step);
    } else if Apply(env, w, step) != w {
      InsideKeepsRx(env, w, step);
    }
  }

  // ------------------------------------------------ every run

  ghost predicate Inv(env: Env, w: World) { RxInv(env, w) && Discipline(env, w) && PoolKept(w) }

  lemma StepKeepsInv(env: Env, w: World, step: Step)
    requires Honest(env) && Inv(env, w)
    ensures Inv(env, Apply(env, w, step))
  {
    StepKeepsDiscipline(env, w, step);
    StepKeepsPool(env, w, step);
    StepKeepsRx(env, w, step);
  }

  lemma InitialInv(env: Env)
    ensures Inv(env, Initial())
  {
    var w := Initial();
    assert LineOf(w) == [] && Actions(env, 0) == [] && Writes(env, 0) == [];
  }

  lemma {:induction false} RunKeepsInv(env: Env, steps: seq<Step>, n: nat)
    requires Honest(env) && n <= |steps|
    ensures Inv(env, Run(env, Initial(), steps, n))
  {
    if n == 0 {
      InitialInv(env);
    } else {
      RunKeepsInv(env, steps, n - 1);
      StepKeepsInv(env, Run(env, Initial(), steps, n - 1), steps[n - 1]);
    }
  }

  /** In every reachable state the commands dispatched, the one in hand and those queued are exactly the
      commands among the controller's first `accepted` messages, in order: none lost, repeated or
      overtaken by another command. The parameter writes are exactly those of the same messages, and the
      controller is never more than one message behind or ahead of what the AGV has accepted. */
  lemma {:induction false} ExactlyOnceInOrder(env: Env, steps: seq<Step>)
    requires Honest(env)
    ensures var w := Run(env, Initial(), steps, |steps|);
            && w.cur <= w.accepted <= w.cur + 1 && w.accepted <= |env.msgs|
            && w.dispatched + InHand(w.task) + w.rx.que == Actions(env, w.accepted)
            && w.written == Writes(env, w.accepted)
            && w.rx.free + |w.rx.que| + |InHand(w.task)| + |AsSeq(w.incoming)| == MAX_ACTIONS
  {
    RunKeepsInv(env, steps, |steps|);
  }

  /** In every reachable state the answers under way are true answers to messages that were accepted, and only
      messages for this vehicle were. */
  lemma {:induction false} AnswersAreTrue(env: Env, steps: seq<Step>)
    requires Honest(env)
    ensures var w := Run(env, Initial(), steps, |steps|);
            && w.accepted <= |env.msgs|
            && (forall f :: f in w.back && !IsAgvType(f.mtype) ==> IsTrueAnswer(env, w.accepted, f))
            && (forall i :: 0 <= i < w.accepted ==>
                  |env.msgs[i].data| >= 4 && BigValue(env.msgs[i].data[0..4]) == env.agvid)
  {
    RunKeepsInv(env, steps, |steps|);
  }

  /** What was dispatched is a prefix of all the controller's commands. */
  lemma {:induction false} DispatchedIsPrefix(env: Env, steps: seq<Step>)
    requires Honest(env)
    ensures Run(env, Initial(), steps, |steps|).dispatched <= Actions(env, |env.msgs|)
  {
    ExactlyOnceInOrder(env, steps);
    var w := Run(env, Initial(), steps, |steps|);
    ActionsGrow(env, w.accepted, |env.msgs|);
    FirstOfThree(w.dispatched, InHand(w.task), w.rx.que, Actions(env, |env.msgs|));
  }

  lemma FirstOfThree(a: seq<Frame>, b: seq<Frame>, c: seq<Frame>, whole: seq<Frame>)
    requires a + b + c <= whole
    ensures a <= whole
  {
  }

  // ------------------------------------------------ what can overtake a command

  /** Every command accepted so far has been dispatched exactly when none is in hand or queued. */
  lemma {:induction false} NothingPending(env: Env, steps: seq<Step>)
    requires Honest(env)
    ensures var w := Run(env, Initial(), steps, |steps|);
            w.dispatched == Actions(env, w.accepted) <==> InHand(w.task) == [] && w.rx.que == []
  {
    ExactlyOnceInOrder(env, steps);
    var w := Run(env, Initial(), steps, |steps|);
    assert |w.dispatched + InHand(w.task) + w.rx.que| == |w.dispatched| + |InHand(w.task)| + |w.rx.que|;
  }

  /** The message m has just been accepted on the spot: truly answered, and applied if it is a write. */
  ghost predicate Effective(agvid: word, w: World, w1: World, m: Frame, reading: word) {
    && w1.accepted == w.accepted + 1 && w1.dispatched == w.dispatched
    && InHand(w1.task) == InHand(w.task) && w1.rx.que == w.rx.que
    && |w1.back| == |w.back| + 1 && w.back <= w1.back && IsReply(agvid, w1.back[|w.back|], m, reading)
    && (m.mtype == WRITE_PARAM ==>
          |m.data| >= 12 && w1.written == w.written + [(WordAt(m.data, 4), WordAt(m.data, 8))])
  }

  lemma HandleAccepts(env: Env, w: World, p: Packet, f: Frame, stale: leftover, reading: word)
    requires Honest(env) && RxInv(env, w) && w.incoming == None && w.accepted < |env.msgs|
    requires p.Msg? ==> Floor(w) <= p.i <= Ceiling(env, w)
    requires (f == Wire(env, w.got, p) || f == Cut(Wire(env, w.got, p))) && IsForUs(env.agvid, f)
    ensures var w1 := Receive(env, w, Body(f), stale, reading);
            w1.accepted > w.accepted ==> Effective(env.agvid, w, w1, env.msgs[w.accepted], reading)
  {
    match p
    case Msg(i) =>
      if i < w.accepted {
        var reply := DuplicateReaction(env, w, env.msgs[i], Body(f), stale, reading);
      } else {
        assert w.accepted > 0 ==> env.msgs[w.accepted - 1].seqno < env.msgs[i].seqno;
        var reply := FreshReaction(env, w, env.msgs[i], Body(f), stale, reading);
      }
    case Ack(j, data) =>
      ReceiveStrayAck(env, w, Body(f), stale, reading);
  }

  lemma PollAccepts(env: Env, w: World, stale: leftover, reading: word)
    requires Honest(env) && RxInv(env, w) && w.mutex.Sending? && w.incoming == None && w.rxq != []
    requires w.accepted < |env.msgs|
    ensures var w1 := Polled(env, w, stale, reading);
            w1.accepted > w.accepted ==> Effective(env.agvid, w, w1, env.msgs[w.accepted], reading)
  {
    var w1 := w.(rxq := w.rxq[1..]);
    PopKeepsRx(env, w, w1);
    var f := Wire(env, w.got, w.rxq[0]);
    if IsForUs(env.agvid, f) {
      HandleAccepts(env, w1, w.rxq[0], f, stale, reading);
    }
  }

  lemma MainAccepts(env: Env, w: World, stale: leftover, reading: word)
    requires Honest(env) && RxInv(env, w) && w.task == Looping && w.incoming == None && w.rxq != []
    requires w.accepted < |env.msgs|
    ensures var w1 := MainReceived(env, w, stale, reading);
            w1.accepted > w.accepted ==> Effective(env.agvid, w, w1, env.msgs[w.accepted], reading)
  {
    var w1 := w.(rxq := w.rxq[1..], task := Emptying);
    PopKeepsRx(env, w, w1);
    var f := Cut(Wire(env, w.got, w.rxq[0]));
    if IsForUs(env.agvid, f) {
      HandleAccepts(env, w1, w.rxq[0], f, stale, reading);
    }
  }

  lemma OthersDoNotAccept(env: Env, w: World, step: Step)
    requires RxInv(env, w) && !step.PollRx? && !step.MainRx?
    ensures Apply(env, w, step).accepted > w.accepted ==>
              w.accepted < |env.msgs| && env.msgs[w.accepted].mtype == ACTION
  {
  }

  /** What the parameter callback returns in the step. */
  function ReadingOf(step: Step): word { if step.PollRx? || step.MainRx? then step.reading else 0 }

  lemma StepAccepts(env: Env, w: World, step: Step)
    requires Honest(env) && RxInv(env, w) && Discipline(env, w) && Apply(env, w, step).accepted > w.accepted
    requires w.accepted < |env.msgs| && env.msgs[w.accepted].mtype != ACTION
    ensures Effective(env.agvid, w, Apply(env, w, step), env.msgs[w.accepted], ReadingOf(step))
  {
    match step
    case PollRx(stale, reading) => PollAccepts(env, w, stale, reading);
    case MainRx(stale, reading) => MainAccepts(env, w, stale, reading);
    case _ => OthersDoNotAccept(env, w, step);
  }

  /** From w to w1 a message that is no command is accepted. */
  ghost predicate AcceptsOther(env: Env, w: World, w1: World) {
    w1.accepted > w.accepted && w.accepted < |env.msgs| && env.msgs[w.accepted].mtype != ACTION
  }

  /** A message that is no command takes effect in the very step that accepts it. At that moment every
      earlier command has been dispatched exactly when none is in hand or queued; otherwise the message
      overtakes those. */
  lemma {:induction false} OvertakesExactly(env: Env, steps: seq<Step>, step: Step, w: World, w1: World)
    requires Honest(env) && w == Run(env, Initial(), steps, |steps|) && w1 == Apply(env, w, step)
    requires AcceptsOther(env, w, w1)
    ensures Effective(env.agvid, w, w1, env.msgs[w.accepted], ReadingOf(step))
    ensures w1.dispatched == Actions(env, w.accepted) <==> InHand(w.task) == [] && w.rx.que == []
  {
    NothingPending(env, steps);
    RunKeepsInv(env, steps, |steps|);
    StepAccepts(env, w, step);
  }

  lemma {:induction false} ActionsGrow(env: Env, m: nat, n: nat)
    requires m <= n <= |env.msgs|
    ensures Actions(env, m) <= Actions(env, n)
  {
    if m < n {
      ActionsGrow(env, m, n - 1);
    }
  }
}
