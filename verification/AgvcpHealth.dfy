/** What the connection's state and its notices say about the exchanges made while it is up. */
module AgvcpHealth {
  import opened AgvcpFrame
  import opened Agvcp

  /** An exchange: the message's type and how it ended. */
  datatype Outcome = Outcome(mtype: word, ending: Ending)

  function JudgedAll(h: Health, outcomes: seq<Outcome>): Health {
    if outcomes == [] then h
    else
      var last := outcomes[|outcomes| - 1];
      Judged(JudgedAll(h, outcomes[..|outcomes| - 1]), last.mtype, last.ending)
  }

  predicate IsGiveUp(o: Outcome) { o.mtype != HEARTBEAT && o.ending == GaveUp }

  function GiveUps(outcomes: seq<Outcome>): nat {
    if outcomes == [] then 0
    else GiveUps(outcomes[..|outcomes| - 1]) + if IsGiveUp(outcomes[|outcomes| - 1]) then 1 else 0
  }

  /** One exchange: the connection is lost exactly when it is up and a message is given up after five others or
      more; it recovers exactly when it is in error and a message other than a heartbeat is acknowledged; all else
      changes neither state nor notices. */
  lemma JudgedExactly(h: Health, o: Outcome)
    requires h.errCnt < 0xFFFF_FFFF
    ensures var h1 := Judged(h, o.mtype, o.ending);
            var loses := h.state == ONLINE && IsGiveUp(o) && h.errCnt >= 5;
            var recovers := h.state == ERROR && o.mtype != HEARTBEAT && o.ending == Done;
            && h1.errCnt == h.errCnt + (if IsGiveUp(o) then 1 else 0)
            && h1.notices == h.notices + (if loses then [LOST] else if recovers then [RECOVERY] else [])
            && h1.state == (if loses then ERROR else if recovers then ONLINE else h.state)
  {
    assert h.notices + [] == h.notices;
  }

  /** Losses and recoveries take turns, beginning with a loss, and the state is the last of them. */
  ghost predicate TakeTurns(h: Health) {
    && (forall k :: 0 <= k < |h.notices| ==> h.notices[k] == if k % 2 == 0 then LOST else RECOVERY)
    && h.state == if |h.notices| % 2 == 0 then ONLINE else ERROR
  }

  /** From a new connection on, over any exchanges: the counter is the number of messages given up, losses and
      recoveries take turns, and nothing is lost before the sixth. */
  lemma {:induction false} HealthFollows(outcomes: seq<Outcome>)
    requires |outcomes| < 0xFFFF_FFFF
    ensures var h := JudgedAll(Health(ONLINE, 0, []), outcomes);
            && h.errCnt == GiveUps(outcomes) <= |outcomes| && TakeTurns(h)
            && (GiveUps(outcomes) <= 5 ==> h.state == ONLINE && h.notices == [])
    decreases |outcomes|
  {
    if outcomes != [] {
      var init, last := outcomes[..|outcomes| - 1], outcomes[|outcomes| - 1];
      HealthFollows(init);
      JudgedExactly(JudgedAll(Health(ONLINE, 0, []), init), last);
    }
  }

  /** The sixth message given up is a loss if the connection is still up, as it is unless it was lost before. */
  lemma {:induction false} SixthIsLost(outcomes: seq<Outcome>, last: Outcome)
    requires |outcomes| + 1 < 0xFFFF_FFFF && GiveUps(outcomes) == 5 && IsGiveUp(last)
    ensures var h := JudgedAll(Health(ONLINE, 0, []), outcomes + [last]);
            h.state == ERROR && h.notices == [LOST]
  {
    assert (outcomes + [last])[..|outcomes|] == outcomes;
    HealthFollows(outcomes);
    JudgedExactly(JudgedAll(Health(ONLINE, 0, []), outcomes), last);
  }

  /** A heartbeat, or a message with unlimited retries, never loses a connection, whatever the socket delivers:
      and the code sends nothing else while it is up. */
  lemma {:induction false} UnlimitedIsNeverLost(agvid: word, s: Link, f: Frame, retries: nat, script: seq<Poll>,
                                                h: Health)
    requires h.state == ONLINE && (f.mtype == HEARTBEAT || retries == 0)
    ensures Judged(h, f.mtype, Send(agvid, s, f, retries, script).ending) == h
  {
    if f.mtype != HEARTBEAT {
      UnlimitedNeverGivesUp(agvid, s, f, script);
    }
  }
}
