/** The code's exchanges are runs of the state machine: whatever sequence of packets and pauses the receive
    queue yields, sending a message and draining the action queue, as the class `Connection` does them,
    are steps of the protocol.
  */
module AgvcpRefinement {
  import opened LibMem
  import opened OsKernel
  import opened AgvcpFrame
  import opened Agvcp
  import opened AgvcpProtocol
  import opened AgvcpRuns

  // ------------------------------------------------ packets behind a script of polls

  /** What one poll finds: nothing, or a packet (and what the code reads beside it). */
  datatype Feed = NoPacket | Delivered(p: Packet, stale: leftover, reading: word)

  function PollOf(env: Env, got: seq<Frame>, d: Feed): Poll {
    match d
    case NoPacket => Quiet
    case Delivered(p, stale, reading) => Got(Wire(env, got, p), stale, reading)
  }

  function Script(env: Env, got: seq<Frame>, feed: seq<Feed>): (script: seq<Poll>)
    ensures |script| == |feed| && forall k :: 0 <= k < |feed| ==> script[k] == PollOf(env, got, feed[k])
  {
    if feed == [] then [] else Script(env, got, feed[..|feed| - 1]) + [PollOf(env, got, feed[|feed| - 1])]
  }

  function OneOnAir(d: Feed): seq<Packet> { if d.Delivered? then [d.p] else [] }

  /** The packets that have to arrive for the first n polls. */
  function OnAir(feed: seq<Feed>, n: nat): seq<Packet>
    requires n <= |feed|
  {
    if n == 0 then [] else OnAir(feed, n - 1) + OneOnAir(feed[n - 1])
  }

  lemma {:induction false} OnAirSplits(feed: seq<Feed>, m: nat, n: nat)
    requires m + n <= |feed|
    ensures OnAir(feed, m + n) == OnAir(feed, m) + OnAir(feed[m..], n)
  {
    if n > 0 {
      OnAirSplits(feed, m, n - 1);
    }
  }

  /** The packets that have to arrive for all of the polls. */
  function Air(feed: seq<Feed>): seq<Packet> { OnAir(feed, |feed|) }

  lemma AirSplits(feed: seq<Feed>, m: nat)
    requires m <= |feed|
    ensures Air(feed) == OnAir(feed, m) + Air(feed[m..])
  {
    var n := |feed| - m;
    assert |feed[m..]| == n && m + n == |feed|;
    OnAirSplits(feed, m, n);
  }

  lemma AirHead(feed: seq<Feed>, m: nat)
    requires m < |feed|
    ensures Air(feed[m..]) == OneOnAir(feed[m]) + Air(feed[m + 1..])
  {
    var rest := feed[m..];
    AirSplits(rest, 1);
    assert OnAir(rest, 0) == [] && rest[1..] == feed[m + 1..];
    assert [] + OneOnAir(rest[0]) == OneOnAir(feed[m]);
  }

  ghost predicate PacketsFit(env: Env, got: seq<Frame>, feed: seq<Feed>) {
    forall k :: 0 <= k < |feed| && feed[k].Delivered? ==> |Wire(env, got, feed[k].p).data| + 8 <= MAX_MSG
  }

  // ------------------------------------------------ the correspondence

  /** The world is where the connection is. */
  ghost predicate Matches(w: World, s: Link) {
    && w.rx == s.rx && w.txseq == s.txseq && w.back == s.outbox && w.written == s.written
    && w.dispatched == s.dispatched && w.incoming == None && w.rxq == []
  }

  /** From w to u only messages have been received. */
  ghost predicate OnlyReceived(w: World, u: World) {
    && u.got == w.got && u.task == w.task && u.mutex == w.mutex
  }

  /** A packet arrives and is read by a waiting sender that does not wait for it. */
  lemma PacketIsListenedTo(env: Env, w: World, s: Link, p: Packet, stale: leftover, reading: word, rest: seq<Packet>)
    returns (u: World)
    requires Matches(w, s) && w.mutex.Sending? && w.air == [p] + rest
    requires var f := Wire(env, w.got, p);
             |f.data| + 8 <= MAX_MSG && !IsAck(Got(f, stale, reading), w.mutex.frame.mtype, w.mutex.frame.seqno)
    ensures Reaches(env, w, u) && OnlyReceived(w, u) && u.air == rest
    ensures Matches(u, Listen(env.agvid, s, Got(Wire(env, w.got, p), stale, reading)))
  {
    var f := Wire(env, w.got, p);
    var w1 := w.(air := rest);
    assert Apply(env, w, Deliver) == w1.(rxq := [p]);
    u := Apply(env, Apply(env, Apply(env, w, Deliver), PollRx(stale, reading)), Commit);
    ReachesThree(env, w, Deliver, PollRx(stale, reading), Commit);
    if |f.data| > 4 && IsForUs(env.agvid, f) {
      SplitIsProcess(env, w1, Body(f), stale, reading);
      ReceivingKeepsTask(env, w1, Body(f), stale, reading);
    }
  }

  lemma ReceivingKeepsTask(env: Env, w: World, f: Frame, stale: leftover, reading: word)
    requires w.incoming == None && w.mutex.Sending?
    ensures var w1 := Receive(env, w, f, stale, reading);
            var u := if w1.incoming.Some? then Post(env, w1, w1.incoming.value) else w1;
            && OnlyReceived(w, u) && u.air == w.air && u.rxq == w.rxq && u.txseq == w.txseq
            && u.dispatched == w.dispatched
  {
  }

  /** The first n polls, none of them the awaited acknowledgement. */
  lemma {:induction false} PollsAreListenedTo(env: Env, w: World, s: Link, feed: seq<Feed>, n: nat, rest: seq<Packet>)
    returns (u: World)
    requires n <= |feed| && Matches(w, s) && w.mutex.Sending? && w.air == OnAir(feed, n) + rest
    requires PacketsFit(env, w.got, feed)
    requires forall k :: 0 <= k < n ==>
               !IsAck(Script(env, w.got, feed)[k], w.mutex.frame.mtype, w.mutex.frame.seqno)
    ensures Reaches(env, w, u) && OnlyReceived(w, u) && u.air == rest
    ensures Matches(u, Listened(env.agvid, s, Script(env, w.got, feed), n))
  {
    if n == 0 {
      ReachesItself(env, w);
      u := w;
    } else {
      var d := feed[n - 1];
      assert w.air == OnAir(feed, n - 1) + (OneOnAir(d) + rest);
      var v := PollsAreListenedTo(env, w, s, feed, n - 1, OneOnAir(d) + rest);
      var t := Listened(env.agvid, s, Script(env, w.got, feed), n - 1);
      assert Script(env, w.got, feed)[n - 1] == PollOf(env, w.got, d);
      if d.Delivered? {
        u := PacketIsListenedTo(env, v, t, d.p, d.stale, d.reading, rest);
      } else {
        u := v;
        assert [] + rest == rest;
        ReachesItself(env, v);
      }
      ReachesJoins(env, w, v, u);
    }
  }

  /** The awaited acknowledgement arrives. */
  lemma AckIsTaken(env: Env, w: World, s: Link, d: Feed, rest: seq<Packet>) returns (u: World)
    requires Matches(w, s) && w.mutex.Sending? && d.Delivered? && w.air == [d.p] + rest
    requires |Wire(env, w.got, d.p).data| + 8 <= MAX_MSG
    requires IsAck(PollOf(env, w.got, d), w.mutex.frame.mtype, w.mutex.frame.seqno)
    ensures Reaches(env, w, u) && u.got == w.got && u.air == rest && u.mutex == Free
    ensures u.task == Released(w.task, w.mutex.frame.mtype)
    ensures Matches(u, s.(txseq := Next(s.txseq), polls := s.polls + 1))
  {
    assert Apply(env, w, Deliver) == w.(air := rest, rxq := [d.p]);
    ReachesTwo(env, w, Deliver, PollRx(d.stale, d.reading));
    u := Apply(env, Apply(env, w, Deliver), PollRx(d.stale, d.reading));
  }

  /** An acknowledged confirmation lets the protocol task go on. */
  function Released(t: Task, mtype: word): Task {
    if mtype == CONFIRM && t.Confirming? then Confirmed(t.block) else t
  }

  // ------------------------------------------------ one exchange

  /** A round of waiting that the acknowledgement ends, after k other polls. */
  lemma AckedRound(env: Env, w: World, s1: Link, f: Frame, feed: seq<Feed>, k: nat) returns (u: World)
    requires Matches(w, s1) && w.mutex.Sending? && w.mutex.frame == f && k < |feed|
    requires w.air == Air(feed) && PacketsFit(env, w.got, feed)
    requires forall i :: 0 <= i < k ==> !IsAck(Script(env, w.got, feed)[i], f.mtype, f.seqno)
    requires IsAck(Script(env, w.got, feed)[k], f.mtype, f.seqno)
    ensures Reaches(env, w, u) && u.got == w.got && u.air == Air(feed[k + 1..])
    ensures u.mutex == Free && u.task == Released(w.task, f.mtype)
    ensures var t := Listened(env.agvid, s1, Script(env, w.got, feed), k);
            Matches(u, t.(txseq := Next(t.txseq), polls := t.polls + 1))
  {
    AirSplits(feed, k);
    AirHead(feed, k);
    assert Script(env, w.got, feed)[k] == PollOf(env, w.got, feed[k]);
    var v := PollsAreListenedTo(env, w, s1, feed, k, Air(feed[k..]));
    u := AckIsTaken(env, v, Listened(env.agvid, s1, Script(env, w.got, feed), k), feed[k], Air(feed[k + 1..]));
    ReachesJoins(env, w, v, u);
  }

  /** One round of waiting, after the transmission. */
  lemma RoundIsRun(env: Env, w: World, s: Link, f: Frame, feed: seq<Feed>) returns (u: World)
    requires Matches(w, Transmit(s, f)) && w.mutex.Sending? && w.mutex.frame == f
    requires |feed| >= POLLS && w.air == Air(feed) && PacketsFit(env, w.got, feed)
    ensures Reaches(env, w, u)
    ensures RoundEnded(w, u, f, TryOnce(env.agvid, s, f, Script(env, w.got, feed)), feed)
  {
    var script := Script(env, w.got, feed);
    var k := FirstAck(script, f.mtype, f.seqno, POLLS);
    if k < POLLS {
      u := AckedRound(env, w, Transmit(s, f), f, feed, k);
    } else {
      AirSplits(feed, POLLS);
      u := PollsAreListenedTo(env, w, Transmit(s, f), feed, POLLS, Air(feed[POLLS..]));
    }
  }

  /** Where a round leaves the world. */
  ghost predicate RoundEnded(w: World, u: World, f: Frame, r: Round, feed: seq<Feed>)
    requires r.used <= |feed|
  {
    && Matches(u, r.link) && u.got == w.got && u.air == Air(feed[r.used..])
    && if r.acked then u.mutex == Free && u.task == Released(w.task, f.mtype)
       else u.mutex == w.mutex && u.task == w.task
  }

  /** Where an exchange leaves the world. */
  ghost predicate Ended(w: World, u: World, f: Frame, x: Exchange, feed: seq<Feed>)
    requires x.used <= |feed|
  {
    && Matches(u, x.link) && u.got == w.got && u.air == Air(feed[x.used..])
    && u.task == (if x.ending == Done then Released(w.task, f.mtype) else w.task)
    && (if x.ending == Unfinished then u.mutex.Sending? && u.mutex.frame == f else u.mutex == Free)
  }

  lemma GivingUp(env: Env, w: World, s: Link)
    requires Matches(w, s) && w.mutex.Sending? && w.mutex.retries == 1
    ensures Apply(env, w, GiveUp) == w.(mutex := Free, failed := w.failed + [w.mutex.frame])
    ensures Matches(Apply(env, w, GiveUp), s)
  {
  }

  lemma Retrying(env: Env, w: World, s: Link, left: nat)
    requires Matches(w, s) && w.mutex.Sending? && w.mutex.retries != 1
    requires left == if w.mutex.retries == 0 then 0 else w.mutex.retries - 1
    ensures var u := Apply(env, w, Retry);
            && Matches(u, Transmit(s, w.mutex.frame)) && u.mutex == w.mutex.(retries := left)
            && u.task == w.task && u.got == w.got && u.air == w.air
  {
  }

  /** A round and the retransmission after it, and the exchange from there. */
  lemma LaterEnd(env: Env, w: World, v: World, v1: World, u: World, f: Frame, x: Exchange, feed: seq<Feed>, m: nat)
    requires Reaches(env, w, v) && Reaches(env, v, v1) && Reaches(env, v1, u)
    requires v1.got == w.got && v1.task == w.task
    requires m <= |feed| && x.used <= |feed[m..]| && Ended(v1, u, f, x, feed[m..])
    ensures Reaches(env, w, u) && Ended(w, u, f, x.(used := m + x.used), feed)
  {
    ReachesJoins(env, w, v, v1);
    ReachesJoins(env, w, v1, u);
    assert feed[m..][x.used..] == feed[m + x.used..];
  }

  lemma {:induction false} LaterScript(env: Env, got: seq<Frame>, feed: seq<Feed>, m: nat)
    requires m <= |feed|
    ensures Script(env, got, feed)[m..] == Script(env, got, feed[m..])
  {
  }

  /** The retransmission loop, after the first transmission. */
  lemma {:induction false} WaitingIsRun(env: Env, w: World, s: Link, f: Frame, retries: nat, feed: seq<Feed>)
    returns (u: World)
    requires Matches(w, Transmit(s, f)) && w.mutex.Sending? && w.mutex.frame == f && w.mutex.retries == retries
    requires f.mtype != HEARTBEAT && w.air == Air(feed) && PacketsFit(env, w.got, feed)
    ensures Reaches(env, w, u)
    ensures Ended(w, u, f, Send(env.agvid, s, f, retries, Script(env, w.got, feed)), feed)
    decreases |feed|
  {
    if |feed| < POLLS {
      ReachesItself(env, w);
      assert feed[0..] == feed;
      return w;
    }
    var script := Script(env, w.got, feed);
    var r := TryOnce(env.agvid, s, f, script);
    u := RoundIsRun(env, w, s, f, feed);
    if !r.acked {
      u := AfterRound(env, w, u, r.link, f, retries, feed);
    }
  }

  /** An unanswered round is the last one, or is followed by the rest of the loop. */
  lemma {:induction false} AfterRound(env: Env, w: World, v: World, t: Link, f: Frame, retries: nat, feed: seq<Feed>)
    returns (u: World)
    requires |feed| >= POLLS && Reaches(env, w, v) && f.mtype != HEARTBEAT && PacketsFit(env, w.got, feed)
    requires RoundEnded(w, v, f, Round(t, false, POLLS), feed)
    requires w.mutex.Sending? && w.mutex.frame == f && w.mutex.retries == retries
    ensures Reaches(env, w, u)
    ensures var left := if retries == 0 then 0 else retries - 1;
            var x := Send(env.agvid, t, f, left, Script(env, w.got, feed)[POLLS..]);
            Ended(w, u, f, if retries == 1 then Exchange(t, GaveUp, POLLS) else x.(used := POLLS + x.used), feed)
    decreases |feed|, 0
  {
    if retries == 1 {
      GivingUp(env, v, t);
      ReachesStep(env, v, GiveUp);
      u := Apply(env, v, GiveUp);
      ReachesJoins(env, w, v, u);
    } else {
      var left := if retries == 0 then 0 else retries - 1;
      Retrying(env, v, t, left);
      ReachesStep(env, v, Retry);
      var v1 := Apply(env, v, Retry);
      LaterScript(env, w.got, feed, POLLS);
      u := WaitingIsRun(env, v1, t, f, left, feed[POLLS..]);
      LaterEnd(env, w, v, v1, u, f, Send(env.agvid, t, f, left, Script(env, w.got, feed[POLLS..])), feed, POLLS);
    }
  }

  /** Sending a message, as the code does it under the mutex, is a run of the protocol. */
  lemma ExchangeIsRun(env: Env, w: World, s: Link, owner: Owner, mtype: word, data: seq<byte>, retries: nat,
                      feed: seq<Feed>) returns (u: World)
    requires Matches(w, s) && w.mutex == Free && MaySend(w, owner, mtype)
    requires w.air == Air(feed) && PacketsFit(env, w.got, feed)
    ensures Reaches(env, w, u)
    ensures var f := Frame(mtype, w.txseq, data);
            Ended(w, u, f, Send(env.agvid, s, f, retries, Script(env, w.got, feed)), feed)
  {
    var f := Frame(mtype, w.txseq, data);
    var v := Apply(env, w, StartSend(owner, mtype, data, retries));
    ReachesStep(env, w, StartSend(owner, mtype, data, retries));
    if mtype == HEARTBEAT {
      assert feed[0..] == feed;
      u := v;
    } else {
      u := WaitingIsRun(env, v, s, f, retries, feed);
      ReachesJoins(env, w, v, u);
    }
  }

  // ------------------------------------------------ draining

  /** Where a drain, or one pass of it, leaves the world. */
  ghost predicate Drained(w: World, u: World, d: Draining, feed: seq<Feed>, done: Task)
    requires d.used <= |feed|
  {
    && Matches(u, d.link) && u.got == w.got && u.air == Air(feed[d.used..])
    && match d.held
       case None => u.task == done && u.mutex == Free
       case Some(block) => u.task == Confirming(block) && u.mutex.Sending?
  }

  lemma TakingOther(env: Env, w: World, s: Link)
    requires Matches(w, s) && w.mutex == Free && w.task == Emptying && s.rx.que != [] && s.rx.que[0].mtype != ACTION
    ensures var u := Apply(env, w, TakeBlock);
            && Matches(u, s.(rx := s.rx.(que := s.rx.que[1..], free := s.rx.free + 1)))
            && u.got == w.got && u.air == w.air && u.task == Emptying && u.mutex == Free
  {
  }

  lemma TakingAction(env: Env, w: World, s: Link, s1: Link)
    requires Matches(w, s) && w.mutex == Free && w.task == Emptying && s.rx.que != [] && s.rx.que[0].mtype == ACTION
    requires s1 == s.(rx := s.rx.(que := s.rx.que[1..]))
    ensures var f := Confirmation(env.agvid, s.txseq, s.rx.que[0]);
            var u := Apply(env, Apply(env, w, TakeBlock), StartConfirm);
            && Matches(u, Transmit(s1, f)) && u.got == w.got && u.air == w.air
            && u.task == Confirming(s.rx.que[0]) && u.mutex == Sending(ProtocolTask, f, 0)
  {
    assert Apply(env, w, TakeBlock) == w.(rx := s1.rx, task := Confirming(s.rx.que[0]));
  }

  lemma Dispatching(env: Env, w: World, s: Link, block: Frame)
    requires Matches(w, s) && w.mutex == Free && w.task == Confirmed(block)
    ensures var u := Apply(env, w, Dispatch);
            && Matches(u, Agvcp.Dispatched(s, block)) && u.got == w.got && u.air == w.air
            && u.task == Emptying && u.mutex == Free
  {
  }

  /** The block at the head of the queue is confirmed and, if that succeeds, dispatched. */
  lemma ActionIsRun(env: Env, w: World, s: Link, s1: Link, feed: seq<Feed>) returns (u: World)
    requires Matches(w, s) && w.mutex == Free && w.task == Emptying && s.rx.que != [] && s.rx.que[0].mtype == ACTION
    requires s1 == s.(rx := s.rx.(que := s.rx.que[1..])) && w.air == Air(feed) && PacketsFit(env, w.got, feed)
    ensures Reaches(env, w, u)
    ensures var block := s.rx.que[0];
            var x := Send(env.agvid, s1, Confirmation(env.agvid, s1.txseq, block), 0, Script(env, w.got, feed));
            Drained(w, u, if x.ending == Done then Draining(Agvcp.Dispatched(x.link, block), None, x.used)
                          else Draining(x.link, Some(block), x.used), feed, Emptying)
  {
    var block := s.rx.que[0];
    var f := Confirmation(env.agvid, s1.txseq, block);
    var script := Script(env, w.got, feed);
    TakingAction(env, w, s, s1);
    ReachesTwo(env, w, TakeBlock, StartConfirm);
    var w2 := Apply(env, Apply(env, w, TakeBlock), StartConfirm);
    UnlimitedNeverGivesUp(env.agvid, s1, f, script);
    u := WaitingIsRun(env, w2, s1, f, 0, feed);
    ReachesJoins(env, w, w2, u);
    var x := Send(env.agvid, s1, f, 0, script);
    if x.ending == Done {
      Dispatching(env, u, x.link, block);
      ReachesStep(env, u, Dispatch);
      ReachesJoins(env, w, u, Apply(env, u, Dispatch));
      u := Apply(env, u, Dispatch);
    }
  }

  lemma PassIsRun(env: Env, w: World, s: Link, feed: seq<Feed>) returns (u: World)
    requires Matches(w, s) && w.mutex == Free && w.task == Emptying && s.rx.que != []
    requires w.air == Air(feed) && PacketsFit(env, w.got, feed)
    ensures Reaches(env, w, u)
    ensures Drained(w, u, DrainOne(env.agvid, s, Script(env, w.got, feed)), feed, Emptying)
  {
    if s.rx.que[0].mtype == ACTION {
      u := ActionIsRun(env, w, s, s.(rx := s.rx.(que := s.rx.que[1..])), feed);
    } else {
      TakingOther(env, w, s);
      ReachesStep(env, w, TakeBlock);
      u := Apply(env, w, TakeBlock);
      assert feed[0..] == feed;
    }
  }

  /** A pass that reached v, and the drain from there. */
  lemma LaterDrain(env: Env, w: World, v: World, u: World, d: Draining, feed: seq<Feed>, m: nat)
    requires Reaches(env, w, v) && Reaches(env, v, u) && v.got == w.got
    requires m <= |feed| && d.used <= |feed[m..]| && Drained(v, u, d, feed[m..], Looping)
    ensures Reaches(env, w, u) && Drained(w, u, d.(used := m + d.used), feed, Looping)
  {
    ReachesJoins(env, w, v, u);
    assert feed[m..][d.used..] == feed[m + d.used..];
  }

  lemma NothingToDrain(env: Env, w: World, s: Link, feed: seq<Feed>) returns (u: World)
    requires Matches(w, s) && w.mutex == Free && w.task == Emptying && s.rx.que == [] && w.air == Air(feed)
    ensures Reaches(env, w, u) && Drained(w, u, Draining(s, None, 0), feed, Looping)
  {
    u := Apply(env, w, TakeBlock);
    ReachesStep(env, w, TakeBlock);
    assert feed[0..] == feed;
  }

  /** Draining the action queue is a run of the protocol. */
  lemma {:induction false} DrainIsRun(env: Env, w: World, s: Link, feed: seq<Feed>) returns (u: World)
    requires Matches(w, s) && w.mutex == Free && w.task == Emptying
    requires w.air == Air(feed) && PacketsFit(env, w.got, feed)
    ensures Reaches(env, w, u)
    ensures Drained(w, u, Drain(env.agvid, s, Script(env, w.got, feed)), feed, Looping)
    decreases |feed|, |s.rx.que|, 3
  {
    if s.rx.que == [] {
      u := NothingToDrain(env, w, s, feed);
    } else {
      var one := DrainOne(env.agvid, s, Script(env, w.got, feed));
      u := PassIsRun(env, w, s, feed);
      if one.held == None {
        var rest;
        u, rest := MorePasses(env, w, u, one, |s.rx.que|, feed);
        DrainUnfolds(env.agvid, s, Script(env, w.got, feed), one, rest);
      } else {
        EndsInHand(w, u, one, feed);
      }
    }
  }

  lemma {:induction false} DrainUnfolds(agvid: word, s: Link, script: seq<Poll>, one: Draining, rest: Draining)
    requires s.rx.que != [] && one == DrainOne(agvid, s, script) && one.held == None
    requires rest == Drain(agvid, one.link, script[one.used..])
    ensures Drain(agvid, s, script) == rest.(used := one.used + rest.used)
  {
  }

  /** The passes after the first, which left the queue shorter than before or used polls. */
  lemma {:induction false} MorePasses(env: Env, w: World, v: World, one: Draining, before: nat, feed: seq<Feed>)
    returns (u: World, d: Draining)
    requires one.used <= |feed| && PacketsFit(env, w.got, feed) && Reaches(env, w, v)
    requires one.held == None && Drained(w, v, one, feed, Emptying)
    requires one.used > 0 || |one.link.rx.que| < before
    ensures Reaches(env, w, u) && d == Drain(env.agvid, one.link, Script(env, w.got, feed)[one.used..])
    ensures Drained(w, u, d.(used := one.used + d.used), feed, Looping)
    decreases |feed|, before, 2
  {
    var rest := feed[one.used..];
    LaterPacketsFit(env, w.got, feed, one.used);
    LaterScript(env, w.got, feed, one.used);
    u, d := AfterPass(env, w, v, one.link, before, one.used, feed, rest, Script(env, w.got, rest));
  }

  lemma EndsInHand(w: World, u: World, d: Draining, feed: seq<Feed>)
    requires d.used <= |feed| && d.held.Some? && Drained(w, u, d, feed, Emptying)
    ensures Drained(w, u, d, feed, Looping)
  {
  }

  lemma LaterPacketsFit(env: Env, got: seq<Frame>, feed: seq<Feed>, m: nat)
    requires m <= |feed| && PacketsFit(env, got, feed)
    ensures PacketsFit(env, got, feed[m..])
  {
  }

  /** The rest of the drain after a pass that left the connection in t; before is the length that the queue
      had. */
  lemma {:induction false} AfterPass(env: Env, w: World, v: World, t: Link, before: nat, used: nat, feed: seq<Feed>,
                                     rest: seq<Feed>, script: seq<Poll>) returns (u: World, d: Draining)
    requires used <= |feed| && rest == feed[used..] && PacketsFit(env, w.got, rest) && Reaches(env, w, v)
    requires Matches(v, t) && v.got == w.got && v.air == Air(rest) && v.task == Emptying && v.mutex == Free
    requires script == Script(env, w.got, rest) && (used > 0 || |t.rx.que| < before)
    ensures Reaches(env, w, u) && d == Drain(env.agvid, t, script)
    ensures Drained(w, u, d.(used := used + d.used), feed, Looping)
    decreases |feed|, before, 1
  {
    u, d := RestIsRun(env, v, t, rest, script, |feed|, before);
    LaterDrain(env, w, v, u, d, feed, used);
  }

  /** The drain from there; length and before only serve to show that it ends. */
  lemma {:induction false} RestIsRun(env: Env, v: World, t: Link, rest: seq<Feed>, script: seq<Poll>,
                                     length: nat, before: nat) returns (u: World, d: Draining)
    requires Matches(v, t) && v.mutex == Free && v.task == Emptying
    requires v.air == Air(rest) && PacketsFit(env, v.got, rest) && script == Script(env, v.got, rest)
    requires |rest| < length || (|rest| == length && |t.rx.que| < before)
    ensures Reaches(env, v, u) && d == Drain(env.agvid, t, script) && Drained(v, u, d, rest, Looping)
    decreases length, before, 0
  {
    u := DrainIsRun(env, v, t, rest);
    d := Drain(env.agvid, t, script);
  }

  // ------------------------------------------------ a turn of the main loop

  /** What the main loop's own poll finds: a packet is cut to the loop's buffer. */
  function MainPollOf(env: Env, got: seq<Frame>, d: Feed): Poll {
    match d
    case NoPacket => Quiet
    case Delivered(p, stale, reading) => Got(Cut(Wire(env, got, p)), stale, reading)
  }

  /** A packet has been received; a block that it filled is posted. */
  lemma PostingIsProcessing(env: Env, w: World, s: Link, f: Frame, stale: leftover, reading: word)
    requires Matches(w, s) && w.mutex == Free
    ensures var w1 := Receive(env, w, f, stale, reading);
            var u := if w1.incoming.Some? then Post(env, w1.(mutex := Receiving), w1.incoming.value) else w1;
            && Matches(u, Processed(env.agvid, s, f, stale, reading)) && OnlyReceived(w, u) && u.air == w.air
  {
    SplitIsProcess(env, w, f, stale, reading);
  }

  /** The main loop has found a packet; w1 is where it leaves the world if the packet is not for the AGV. */
  lemma MainLoopReceives(env: Env, w: World, w1: World, s: Link, d: Feed) returns (u: World)
    requires d.Delivered? && w.rxq == [d.p] && w.mutex == Free && w.task == Looping
    requires w1 == w.(rxq := [], task := Emptying) && Matches(w1, s)
    ensures Reaches(env, w, u) && OnlyReceived(w1, u) && u.air == w.air
    ensures Matches(u, Received(env.agvid, s, MainPollOf(env, w.got, d)))
  {
    var f := Cut(Wire(env, w.got, d.p));
    assert w.rxq[1..] == [];
    var v := Apply(env, w, MainRx(d.stale, d.reading));
    assert v == MainReceived(env, w, d.stale, d.reading);
    ReachesStep(env, w, MainRx(d.stale, d.reading));
    if IsForUs(env.agvid, f) {
      PostingIsProcessing(env, w1, s, Body(f), d.stale, d.reading);
      u := Apply(env, v, Commit);
      ReachesStep(env, v, Commit);
      ReachesJoins(env, w, v, u);
    } else {
      u := v;
    }
  }

  /** At most one message is received, and a command in it buffered. */
  lemma ReceivingIsRun(env: Env, w: World, s: Link, d: Feed, rest: seq<Packet>) returns (u: World)
    requires Matches(w, s) && w.mutex == Free && w.task == Looping && w.air == OneOnAir(d) + rest
    requires d.Delivered? ==> |Wire(env, w.got, d.p).data| + 8 <= MAX_MSG
    ensures Reaches(env, w, u) && u.got == w.got && u.air == rest && u.task == Emptying && u.mutex == Free
    ensures Matches(u, Received(env.agvid, s, MainPollOf(env, w.got, d)))
  {
    if d.NoPacket? {
      assert [] + rest == rest;
      ReachesStep(env, w, StartDrain);
      u := Apply(env, w, StartDrain);
    } else {
      assert Apply(env, w, Deliver) == w.(air := rest, rxq := [d.p]);
      ReachesStep(env, w, Deliver);
      u := MainLoopReceives(env, w.(air := rest, rxq := [d.p]), w.(air := rest, task := Emptying), s, d);
      ReachesJoins(env, w, w.(air := rest, rxq := [d.p]), u);
    }
  }

  /** A turn of the main loop, which receives a message if there is one and then drains the action queue, is
      a run of the protocol. */
  lemma TurnIsRun(env: Env, w: World, s: Link, d: Feed, feed: seq<Feed>) returns (u: World)
    requires Matches(w, s) && w.mutex == Free && w.task == Looping
    requires w.air == OneOnAir(d) + Air(feed) && PacketsFit(env, w.got, [d] + feed)
    ensures Reaches(env, w, u)
    ensures var s1 := Received(env.agvid, s, MainPollOf(env, w.got, d));
            Drained(w, u, Drain(env.agvid, s1, Script(env, w.got, feed)), feed, Looping)
  {
    LaterPacketsFit(env, w.got, [d] + feed, 1);
    assert ([d] + feed)[1..] == feed && ([d] + feed)[0] == d;
    var v := ReceivingIsRun(env, w, s, d, Air(feed));
    u := DrainIsRun(env, v, Received(env.agvid, s, MainPollOf(env, w.got, d)), feed);
    ReachesJoins(env, w, v, u);
  }
}
