/** What the exchanges of Agvcp keep and promise, whatever the socket delivers. */
module AgvcpLaws {
  import opened Arithmetic
  import opened OsKernel
  import opened AgvcpFrame
  import opened Agvcp

  // ------------------------------------------------ duplicates

  /** Once a command is accepted, its retransmission is answered the same way and has no other effect,
      exactly when its sequence number is not 0. */
  lemma RetransmissionIsHarmless(agvid: word, rx: Receiver, f: Frame, stale: leftover, reading: word)
    requires f.mtype == ACTION || f.mtype == WRITE_PARAM
    requires Process(agvid, rx, f, stale, reading).verdict == EOK
    ensures var first := Process(agvid, rx, f, stale, reading);
            var again := Process(agvid, first.rx, f, stale, reading);
            && (again.verdict == EEXIST <==> f.seqno != 0)
            && (again.verdict == EEXIST ==> again.rx == first.rx && again.reply == first.reply && again.write == None)
  {
  }

  /** A connection that has received nothing takes sequence number 0xFFFF_FFFF for a duplicate: such a
      command is acknowledged and lost. */
  lemma FreshConnectionAlias(agvid: word, f: Frame, stale: leftover, reading: word)
    requires f.mtype == ACTION || f.mtype == WRITE_PARAM
    requires f.mtype == ACTION ==> (WordAt(f.data + stale, 4) + 8) % WORD == |f.data| <= MAX_MSG - 16
    ensures var r := Process(agvid, Receiver(0xFFFF_FFFF, MAX_ACTIONS, []), f, stale, reading);
            && r.reply.Some?
            && (r.rx.que == [] && r.write == None <==> f.seqno == 0xFFFF_FFFF)
  {
  }

  // ------------------------------------------------ what every exchange keeps

  /** The blocks accounted for outside the hands of a task. */
  function Blocks(s: Link): nat { s.rx.free + |s.rx.que| }

  predicate AllActions(q: seq<Frame>) {
    forall k :: 0 <= k < |q| ==> q[k].mtype == ACTION
  }

  /** From s to t the action queue has only grown at its end, its blocks came from the pool, and nothing
      was dispatched. */
  ghost predicate OnlyQueued(s: Link, t: Link) {
    && s.rx.que <= t.rx.que && Blocks(t) == Blocks(s) && (AllActions(s.rx.que) ==> AllActions(t.rx.que))
    && t.dispatched == s.dispatched && t.times == s.times
  }

  lemma {:induction false} ListeningOnlyQueues(agvid: word, s: Link, script: seq<Poll>, n: nat)
    requires n <= |script|
    ensures OnlyQueued(s, Listened(agvid, s, script, n))
    ensures Listened(agvid, s, script, n).txseq == s.txseq
    ensures Listened(agvid, s, script, n).polls == s.polls + n
  {
    if n > 0 {
      ListeningOnlyQueues(agvid, s, script, n - 1);
    }
  }

  /** No acknowledgement among the first n polls. */
  ghost predicate Unanswered(script: seq<Poll>, n: nat, mtype: word, seqno: word)
    requires n <= |script|
  {
    forall i :: 0 <= i < n ==> !IsAck(script[i], mtype, seqno)
  }

  lemma TryingOnce(agvid: word, s: Link, f: Frame, script: seq<Poll>)
    requires |script| >= POLLS
    ensures var r := TryOnce(agvid, s, f, script);
            && OnlyQueued(s, r.link) && r.link.polls == s.polls + r.used
            && r.link.txseq == (if r.acked then Next(s.txseq) else s.txseq)
            && (if r.acked then IsAck(script[r.used - 1], f.mtype, f.seqno)
                             && Unanswered(script, r.used - 1, f.mtype, f.seqno)
                else Unanswered(script, POLLS, f.mtype, f.seqno))
  {
    ListeningOnlyQueues(agvid, Transmit(s, f), script, FirstAck(script, f.mtype, f.seqno, POLLS));
  }

  /** An exchange other than a heartbeat ends well exactly at the first acknowledgement of its message,
      and only then does the sequence number advance; it gives up after `retries` unanswered rounds. */
  lemma {:induction false} SendEndsAtAck(agvid: word, s: Link, f: Frame, retries: nat, script: seq<Poll>)
    requires f.mtype != HEARTBEAT
    ensures var x := Send(agvid, s, f, retries, script);
            && OnlyQueued(s, x.link) && x.link.polls == s.polls + x.used
            && x.link.txseq == (if x.ending == Done then Next(s.txseq) else s.txseq)
            && (x.ending == Done ==>
                  x.used > 0 && IsAck(script[x.used - 1], f.mtype, f.seqno)
                  && Unanswered(script, x.used - 1, f.mtype, f.seqno))
            && (x.ending == GaveUp ==>
                  retries > 0 && x.used == POLLS * retries && Unanswered(script, x.used, f.mtype, f.seqno))
            && (x.ending == Unfinished ==>
                  |script| - x.used < POLLS && Unanswered(script, x.used, f.mtype, f.seqno))
    decreases |script|
  {
    if |script| >= POLLS {
      TryingOnce(agvid, s, f, script);
      var r := TryOnce(agvid, s, f, script);
      if !r.acked && retries != 1 {
        var left := if retries == 0 then 0 else retries - 1;
        SendEndsAtAck(agvid, r.link, f, left, script[POLLS..]);
        LaterRound(script, Send(agvid, r.link, f, left, script[POLLS..]).used, f.mtype, f.seqno);
        LongerQueue(s, r.link, Send(agvid, r.link, f, left, script[POLLS..]).link);
      }
    }
  }

  lemma LaterRound(script: seq<Poll>, used: nat, mtype: word, seqno: word)
    requires POLLS + used <= |script| && Unanswered(script, POLLS, mtype, seqno)
    ensures Unanswered(script[POLLS..], used, mtype, seqno) ==> Unanswered(script, POLLS + used, mtype, seqno)
    ensures used > 0 && Unanswered(script[POLLS..], used - 1, mtype, seqno) ==>
              Unanswered(script, POLLS + used - 1, mtype, seqno)
  {
    forall i | POLLS <= i < POLLS + used ensures script[i] == script[POLLS..][i - POLLS] {
    }
  }

  lemma LongerQueue(s: Link, t: Link, u: Link)
    requires OnlyQueued(s, t) && OnlyQueued(t, u)
    ensures OnlyQueued(s, u)
  {
  }

  // ------------------------------------------------ confirm, then dispatch

  /** Actions in the order in which they were accepted: dispatched, in hand, and waiting. */
  function Line(s: Link, held: Option<Frame>): seq<Frame> {
    s.dispatched + AsSeq(held) + s.rx.que
  }

  /** The poll made last before the time t acknowledged confirmation number seqno; base is the time at which
      the script starts. */
  ghost predicate AckedAt(script: seq<Poll>, base: nat, seqno: word, t: nat) {
    base < t <= base + |script| && IsAck(script[t - base - 1], CONFIRM, seqno)
  }

  /** The i-th of the new dispatch times follows at once on the acknowledgement of the i-th confirmation,
      and they increase. */
  ghost predicate EachConfirmed(script: seq<Poll>, base: nat, txseq: word, times: seq<nat>) {
    && (forall i :: 0 <= i < |times| ==> AckedAt(script, base, (txseq + i) % WORD, times[i]))
    && (forall i, j :: 0 <= i < j < |times| ==> times[i] < times[j])
  }

  /** Draining dispatches accepted actions in order; no action is lost, repeated or overtaken, and every
      block is accounted for. */
  lemma {:induction false} DrainKeepsOrder(agvid: word, s: Link, script: seq<Poll>)
    requires AllActions(s.rx.que)
    ensures var d := Drain(agvid, s, script);
            && Line(s, None) <= Line(d.link, d.held) && s.dispatched <= d.link.dispatched
            && Blocks(d.link) + |AsSeq(d.held)| == Blocks(s)
            && (d.held == None ==> d.link.rx.que == [])
    decreases |script|, |s.rx.que|
  {
    if s.rx.que != [] {
      DrainOneKeepsOrder(agvid, s, script);
      var one := DrainOne(agvid, s, script);
      if one.held == None {
        DrainKeepsOrder(agvid, one.link, script[one.used..]);
      }
    }
  }

  /** From s to t the dispatches are as many as the completed confirmations, and each follows its own. */
  ghost predicate DispatchesConfirmed(script: seq<Poll>, s: Link, t: Link) {
    && s.times <= t.times && |t.dispatched| - |s.dispatched| == |t.times| - |s.times|
    && t.txseq == (s.txseq + (|t.times| - |s.times|)) % WORD
    && EachConfirmed(script, s.polls, s.txseq, t.times[|s.times|..])
  }

  /** Each action is dispatched right after the poll that acknowledges its own confirmation. */
  lemma {:induction false} DrainConfirmsEach(agvid: word, s: Link, script: seq<Poll>)
    requires AllActions(s.rx.que)
    ensures var d := Drain(agvid, s, script); DispatchesConfirmed(script, s, d.link) && d.link.polls == s.polls + d.used
    decreases |script|, |s.rx.que|
  {
    if s.rx.que == [] {
      NoneDispatched(script, s, s);
    } else {
      DrainOneKeepsOrder(agvid, s, script);
      var one := DrainOne(agvid, s, script);
      if one.held == None {
        var rest := script[one.used..];
        DrainConfirmsEach(agvid, one.link, rest);
        OneMoreDispatch(script, s, one.link, one.used, Drain(agvid, one.link, rest).link);
      } else {
        NoneDispatched(script, s, one.link);
      }
    }
  }

  lemma NoneDispatched(script: seq<Poll>, s: Link, t: Link)
    requires t.txseq == s.txseq && t.dispatched == s.dispatched && t.times == s.times
    ensures DispatchesConfirmed(script, s, t)
  {
  }

  lemma OneMoreDispatch(script: seq<Poll>, s: Link, one: Link, used: nat, t: Link)
    requires 0 < used <= |script| && AckedAt(script, s.polls, s.txseq, s.polls + used)
    requires one.txseq == Next(s.txseq) && one.times == s.times + [s.polls + used] && one.polls == s.polls + used
    requires |one.dispatched| == |s.dispatched| + 1
    requires DispatchesConfirmed(script[used..], one, t)
    ensures DispatchesConfirmed(script, s, t)
  {
    var times := t.times[|one.times|..];
    OneMoreConfirmed(script, used, s.polls, s.txseq, times);
    assert t.times[|s.times|..] == [s.polls + used] + times;
  }

  lemma EarlierPoll(script: seq<Poll>, used: nat, base: nat, seqno: word, t: nat)
    requires used <= |script| && AckedAt(script[used..], base + used, seqno, t)
    ensures AckedAt(script, base, seqno, t) && t > base + used
  {
    assert script[used..][t - (base + used) - 1] == script[t - base - 1];
  }

  lemma OneMoreConfirmed(script: seq<Poll>, used: nat, base: nat, txseq: word, times: seq<nat>)
    requires 0 < used <= |script| && AckedAt(script, base, txseq, base + used)
    requires EachConfirmed(script[used..], base + used, Next(txseq), times)
    ensures EachConfirmed(script, base, txseq, [base + used] + times)
    ensures (Next(txseq) + |times|) % WORD == (txseq + (|times| + 1)) % WORD
  {
    forall i | 0 <= i < |times|
      ensures AckedAt(script, base, (txseq + (i + 1)) % WORD, times[i]) && times[i] > base + used
    {
      EarlierPoll(script, used, base, (Next(txseq) + i) % WORD, times[i]);
    }
    var all := [base + used] + times;
    forall i | 0 <= i < |all| ensures AckedAt(script, base, (txseq + i) % WORD, all[i]) {
      if i > 0 {
        assert AckedAt(script, base, (txseq + (i - 1 + 1)) % WORD, times[i - 1]);
      }
    }
  }

  /** One pass: the head of the queue is confirmed and dispatched, or still in hand. */
  lemma DrainOneKeepsOrder(agvid: word, s: Link, script: seq<Poll>)
    requires AllActions(s.rx.que) && s.rx.que != []
    ensures var d := DrainOne(agvid, s, script);
            && Line(s, None) <= Line(d.link, d.held) && AllActions(d.link.rx.que)
            && Blocks(d.link) + |AsSeq(d.held)| == Blocks(s) && d.link.polls == s.polls + d.used
    ensures var d := DrainOne(agvid, s, script);
            if d.held == None
            then d.link.txseq == Next(s.txseq) && d.link.dispatched == s.dispatched + [s.rx.que[0]]
              && d.link.times == s.times + [s.polls + d.used] && d.used > 0
              && AckedAt(script, s.polls, s.txseq, s.polls + d.used)
            else d.link.txseq == s.txseq && d.link.dispatched == s.dispatched && d.link.times == s.times
  {
    var block := s.rx.que[0];
    var s1 := s.(rx := s.rx.(que := s.rx.que[1..]));
    var x := Send(agvid, s1, Confirmation(agvid, s1.txseq, block), 0, script);
    SendEndsAtAck(agvid, s1, Confirmation(agvid, s1.txseq, block), 0, script);
    HeadMovesOn(s, s1, x.link, block);
  }

  lemma HeadMovesOn(s: Link, s1: Link, t: Link, block: Frame)
    requires s.rx.que == [block] + s1.rx.que && s1.dispatched == s.dispatched && OnlyQueued(s1, t)
    ensures Line(s, None) <= Line(t, Some(block))
    ensures Line(s, None) <= Line(Dispatched(t, block), None)
  {
    assert Line(s, None) == s.dispatched + [block] + s1.rx.que;
    assert Line(t, Some(block)) == s.dispatched + [block] + t.rx.que;
    assert Line(Dispatched(t, block), None) == s.dispatched + [block] + t.rx.que;
  }
}
