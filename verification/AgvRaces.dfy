/** What remains of the command pipeline's results when the handlers of the two tasks interleave, and two
    short runs in which commands are lost or overtaken.
  */
module AgvRaces {
  import opened OsKernel
  import opened AgvcpFrame
  import opened AgvCommands
  import opened AgvCommandLaws

  // ------------------------------------------------ commands between taking one and issuing it

  /** A command that the protocol task handles. */
  datatype Arrival = Arrival(action: word, len: nat, params: memory, answer: Answer, block: memory)

  /** The first n of them, one after the other. */
  function Handled(v: Vehicle, news: seq<Arrival>, n: nat): Vehicle
    requires n <= |news|
  {
    if n == 0 then v else HandledOne(Handled(v, news, n - 1), news[n - 1])
  }

  function HandledOne(v: Vehicle, a: Arrival): Vehicle {
    Accepted(v, a.action, a.len, a.params, a.answer, a.block)
  }

  /** What holds before them and is kept by each holds after them. */
  lemma {:induction false} HandledInduction(p: Vehicle -> bool, v: Vehicle, news: seq<Arrival>, n: nat)
    requires n <= |news| && p(v)
    requires forall u: Vehicle, a: Arrival :: a in news && p(u) ==> p(HandledOne(u, a))
    ensures p(Handled(v, news, n))
  {
    if n > 0 {
      HandledInduction(p, v, news, n - 1);
    }
  }

  /** A command that the vehicle's task took from the queue some time ago is issued, and its block freed. */
  function IssuedLate(u: Vehicle, o: Order, answer: Answer): Vehicle {
    Settled(Moved(u, o, answer), o, Issuing(u, o, answer)).(free := u.free + 1)
  }

  lemma LatePlaces(u: Vehicle, o: Order, answer: Answer)
    ensures var x := IssuedLate(u, o, answer);
            x.issued == u.issued + (if Issuing(u, o, answer) == OK then [o] else []) && x.cmds == u.cmds
  {
    MovingKeepsCommands(u, o, answer);
  }

  /** If it is not issued it is lost; its block is free again in any case. */
  lemma LateBlock(u: Vehicle, o: Order, answer: Answer)
    ensures var x := IssuedLate(u, o, answer);
            x.lost == (if Issuing(u, o, answer) == OK then u.lost else u.lost + [o]) && x.free == u.free + 1
  {
    MovingKeepsCommands(u, o, answer);
  }

  /** Arrival numbers above lo and below hi, in order. */
  ghost predicate Newer(ids: seq<nat>, lo: nat, hi: nat) {
    Increasing(ids) && forall k :: 0 <= k < |ids| ==> lo < ids[k] < hi
  }

  ghost predicate NoStops(s: seq<Order>) { forall k :: 0 <= k < |s| ==> s[k].sent != STOP }

  /** Between taking o from the head of v's queue and issuing it: new are the commands issued meanwhile. */
  ghost predicate Meanwhile(v: Vehicle, o: Order, u: Vehicle, between: seq<Order>) {
    && u.issued == v.issued + between && NoStops(between) && u.free + |u.cmds| < MAX_COMMANDS
    && Newer(NonStop(between) + NonStop(u.cmds), o.id, |u.arrived|) && o.id < |u.arrived|
    && (|v.cmds| > 1 ==> between == [] && u.cmds != [])
  }

  lemma NewerAppend(ids: seq<nat>, lo: nat, hi: nat)
    requires Newer(ids, lo, hi) && lo < hi
    ensures Newer(ids + [hi], lo, hi + 1) && Newer(ids, lo, hi + 1)
  {
  }

  lemma TakingStarts(v: Vehicle)
    requires OrderInv(v) && v.cmds != [] && v.cmds[0].sent != STOP
    ensures Meanwhile(v, v.cmds[0], v.(cmds := v.cmds[1..]), [])
    ensures BeforeIs(NonStop(v.issued), v.cmds[0].id)
  {
    var o, tail := v.cmds[0], v.cmds[1..];
    assert v.cmds == [o] + tail;
    HeadIsBetween(v.arrived, v.issued, o, tail, v.lost);
    assert v.issued + [] == v.issued && NonStop([]) + NonStop(tail) == NonStop(tail);
  }

  lemma {:induction false} HeadIsBetween(arrived: seq<Order>, issued: seq<Order>, o: Order, tail: seq<Order>,
                                         lost: seq<Order>)
    requires InOrder(arrived, issued, [o] + tail, lost) && o.sent != STOP
    ensures BeforeIs(NonStop(issued), o.id) && Newer(NonStop(tail), o.id, |arrived|) && o.id < |arrived|
  {
    NonStopAppend(tail, o);
    AroundOne(NonStop(issued), o.id, NonStop(tail), |arrived|);
  }

  /** Arrival numbers in order, all below id. */
  ghost predicate BeforeIs(ids: seq<nat>, id: nat) {
    Increasing(ids) && forall k :: 0 <= k < |ids| ==> ids[k] < id
  }

  lemma AroundOne(before: seq<nat>, id: nat, after: seq<nat>, hi: nat)
    requires Increasing(before + ([id] + after))
    requires forall k :: 0 <= k < |before + ([id] + after)| ==> (before + ([id] + after))[k] < hi
    ensures BeforeIs(before, id) && Newer(after, id, hi) && id < hi
  {
    var all, m := before + ([id] + after), |before|;
    assert all[m] == id;
    assert forall k :: 0 <= k < m ==> all[k] == before[k];
    assert forall k :: 0 <= k < |after| ==> all[m + 1 + k] == after[k];
    forall i, j | 0 <= i < j < |after| ensures after[i] < after[j] {
      assert all[m + 1 + i] < all[m + 1 + j];
    }
    forall k | 0 <= k < |after| ensures id < after[k] < hi {
      assert all[m] < all[m + 1 + k];
    }
  }

  lemma {:induction false} IssuedIsNewest(between: seq<Order>, n: Order, lo: nat)
    requires Newer(NonStop(between) + NonStop([]), lo, n.id) && lo < n.id && n.sent != STOP
    ensures Newer(NonStop(between + [n]) + NonStop([]), lo, n.id + 1)
  {
    NonStopAppend(between, n);
    NewerAppend(NonStop(between), lo, n.id);
    assert NonStop(between) + [] == NonStop(between);
    assert NonStop(between + [n]) + [] == NonStop(between) + [n.id];
  }

  lemma {:induction false} WaitingIsNewest(between: seq<Order>, cmds: seq<Order>, q: Order, lo: nat)
    requires Newer(NonStop(between) + NonStop(cmds), lo, q.id) && lo < q.id && q.sent != STOP
    ensures Newer(NonStop(between) + NonStop(cmds + [q]), lo, q.id + 1)
  {
    NonStopAppend(cmds, q);
    NewerAppend(NonStop(between) + NonStop(cmds), lo, q.id);
    assert NonStop(between) + (NonStop(cmds) + [q.id]) == NonStop(between) + NonStop(cmds) + [q.id];
  }

  lemma OneIssued(v: Vehicle, o: Order, u: Vehicle, between: seq<Order>, n: Order, u1: Vehicle)
    requires Meanwhile(v, o, u, between) && n.id == |u.arrived| && n.sent != STOP && u.cmds == []
    requires u1.issued == u.issued + [n] && u1.cmds == [] && |u1.arrived| == |u.arrived| + 1 && u1.free == u.free
    ensures Meanwhile(v, o, u1, between + [n])
  {
    IssuedIsNewest(between, n, o.id);
    assert u.issued + [n] == v.issued + (between + [n]);
  }

  lemma OneWaits(v: Vehicle, o: Order, u: Vehicle, between: seq<Order>, q: Order, u1: Vehicle)
    requires Meanwhile(v, o, u, between) && q.id == |u.arrived| && q.sent != STOP
    requires u1.issued == u.issued && u1.cmds == u.cmds + [q]
    requires |u1.arrived| == |u.arrived| + 1 && u1.free + |u1.cmds| == u.free + |u.cmds|
    ensures Meanwhile(v, o, u1, between)
  {
    WaitingIsNewest(between, u.cmds, q, o.id);
  }

  lemma OneIsLost(v: Vehicle, o: Order, u: Vehicle, between: seq<Order>, u1: Vehicle)
    requires Meanwhile(v, o, u, between) && u1.issued == u.issued && u1.cmds == u.cmds && u1.free == u.free
    requires |u1.arrived| == |u.arrived| + 1
    ensures Meanwhile(v, o, u1, between)
  {
    NewerAppend(NonStop(between) + NonStop(u.cmds), o.id, |u.arrived|);
  }

  /** One more command is handled: issued, queued or lost. */
  lemma OneMore(v: Vehicle, o: Order, u: Vehicle, between: seq<Order>, a: Arrival) returns (newer: seq<Order>)
    requires Meanwhile(v, o, u, between) && a.action != STOP
    ensures Meanwhile(v, o, HandledOne(u, a), newer)
  {
    var n, u1 := Order(|u.arrived|, a.action, a.action, a.len, a.params), HandledOne(u, a);
    AcceptedPlaces(u, a.action, a.len, a.params, a.answer, a.block);
    match PlaceOf(u, n, a.answer)
    case AtOnce =>
      newer := between + [n];
      OneIssued(v, o, u, between, n, u1);
    case AtEnd =>
      newer := between;
      OneWaits(v, o, u, between, Stored(n, a.block), u1);
    case Nowhere =>
      newer := between;
      OneIsLost(v, o, u, between, u1);
  }

  /** Some commands were issued meanwhile, or none. */
  ghost predicate IsMeanwhile(v: Vehicle, o: Order, u: Vehicle) { exists between :: Meanwhile(v, o, u, between) }

  lemma {:induction false} MeanwhileHandled(v: Vehicle, o: Order, popped: Vehicle, news: seq<Arrival>)
    returns (between: seq<Order>)
    requires Meanwhile(v, o, popped, []) && forall k :: 0 <= k < |news| ==> news[k].action != STOP
    ensures Meanwhile(v, o, Handled(popped, news, |news|), between)
  {
    forall u: Vehicle, a: Arrival | a in news && IsMeanwhile(v, o, u) ensures IsMeanwhile(v, o, HandledOne(u, a)) {
      var before :| Meanwhile(v, o, u, before);
      var newer := OneMore(v, o, u, before, a);
    }
    HandledInduction(u => IsMeanwhile(v, o, u), popped, news, |news|);
    between :| Meanwhile(v, o, Handled(popped, news, |news|), between);
  }

  /** The vehicle's task has taken o from the head of the queue; the protocol task handles any number of new
      commands other than STOP; then o is issued. The order of arrival is lost exactly when o is issued and a
      new command was issued meanwhile, which takes o to have been the only one queued. */
  lemma {:induction false} SplitIssueOvertakes(v: Vehicle, o: Order, news: seq<Arrival>, u: Vehicle, later: Answer)
    requires OrderInv(v) && v.cmds != [] && o == v.cmds[0] && o.sent != STOP
    requires forall k :: 0 <= k < |news| ==> news[k].action != STOP
    requires u == Handled(v.(cmds := v.cmds[1..]), news, |news|)
    ensures Increasing(NonStop(IssuedLate(u, o, later).issued) + NonStop(IssuedLate(u, o, later).cmds)) <==>
              !(u.issued != v.issued && Issuing(u, o, later) == OK)
    ensures u.issued != v.issued ==> |v.cmds| == 1
  {
    TakingStarts(v);
    var between := MeanwhileHandled(v, o, v.(cmds := v.cmds[1..]), news);
    LatePlaces(u, o, later);
    FinalOrder(v.issued, between, u.cmds, o, Issuing(u, o, later) == OK, |u.arrived|);
  }

  /** For a single new command the condition can be read off before it arrives. */
  lemma SingleOvertakes(v: Vehicle, a: Arrival)
    requires OrderInv(v) && v.cmds != [] && a.action != STOP
    ensures var n := Order(|v.arrived|, a.action, a.action, a.len, a.params);
            var popped := v.(cmds := v.cmds[1..]);
            Accepted(popped, a.action, a.len, a.params, a.answer, a.block).issued != v.issued <==>
              |v.cmds| == 1 && Issuing(v, n, a.answer) == OK
  {
    AcceptedPlaces(v.(cmds := v.cmds[1..]), a.action, a.len, a.params, a.answer, a.block);
  }

  /** The resulting order: the commands issued before, the new ones, o if it is issued, and the queue. */
  lemma {:induction false} FinalOrder(issued: seq<Order>, between: seq<Order>, cmds: seq<Order>, o: Order, kept: bool,
                                      hi: nat)
    requires BeforeIs(NonStop(issued), o.id) && o.sent != STOP && NoStops(between)
    requires Newer(NonStop(between) + NonStop(cmds), o.id, hi)
    ensures Increasing(NonStop(issued + between + (if kept then [o] else [])) + NonStop(cmds)) <==>
              !(between != [] && kept)
  {
    NonStopJoins(issued, between);
    NoStopsCount(between);
    NonStopAppend(issued + between, o);
    assert issued + between + [] == issued + between;
    if kept {
      WithOne(NonStop(issued), NonStop(between), o.id, NonStop(cmds), hi);
    } else {
      WithoutOne(NonStop(issued), NonStop(between), o.id, NonStop(cmds), hi);
    }
  }

  lemma {:induction false} NoStopsCount(s: seq<Order>)
    requires NoStops(s)
    ensures |NonStop(s)| == |s|
    decreases |s|
  {
    if s != [] {
      NoStopsCount(s[..|s| - 1]);
    }
  }

  lemma WithOne(before: seq<nat>, a: seq<nat>, id: nat, c: seq<nat>, hi: nat)
    requires BeforeIs(before, id) && Newer(a + c, id, hi)
    ensures Increasing(before + a + [id] + c) <==> a == []
  {
    if a == [] {
      assert a + c == c && before + a == before;
      OneBetween(before, id, c, hi);
    } else {
      var all, m := before + a + [id] + c, |before|;
      assert a[0] == (a + c)[0] > id;
      assert all[m] == a[0] && all[m + |a|] == id;
    }
  }

  lemma OneBetween(before: seq<nat>, id: nat, c: seq<nat>, hi: nat)
    requires BeforeIs(before, id) && Newer(c, id, hi)
    ensures Increasing(before + [id] + c)
  {
    var all, m := before + [id] + c, |before|;
    forall i, j | 0 <= i < j < |all| ensures all[i] < all[j] {
      assert all[i] == if i < m then before[i] else if i == m then id else c[i - m - 1];
      assert all[j] == if j < m then before[j] else if j == m then id else c[j - m - 1];
    }
  }

  lemma WithoutOne(before: seq<nat>, a: seq<nat>, id: nat, c: seq<nat>, hi: nat)
    requires BeforeIs(before, id) && Newer(a + c, id, hi)
    ensures Increasing(before + a + c)
  {
    var all, rest := before + a + c, a + c;
    assert all == before + rest;
    assert forall k :: 0 <= k < |all| ==> all[k] == if k < |before| then before[k] else rest[k - |before|];
  }

  // ------------------------------------------------ points between taking one and putting it back

  /** The check of a tag has taken the first point, which does not match; points are locked; then the point is
      put back in front. It is still there exactly when all of them fit; otherwise it is gone. */
  lemma {:induction false} SplitCheckLosesPoint(v: Vehicle, points: seq<word>, u: Vehicle)
    requires v.wp != [] && |v.wp| <= MAX_WAYPOINTS && u == Locked(v.(wp := v.wp[1..]), points)
    ensures if |v.wp| + |points| <= MAX_WAYPOINTS
            then QPostFront(u.wp, MAX_WAYPOINTS, v.wp[0]) == v.wp + points
            else QPostFront(u.wp, MAX_WAYPOINTS, v.wp[0]) == u.wp && |u.wp| == MAX_WAYPOINTS
  {
    LockedFills(v.(wp := v.wp[1..]), points);
    if |v.wp| + |points| <= MAX_WAYPOINTS {
      assert points[..|points|] == points;
      assert [v.wp[0]] + (v.wp[1..] + points) == v.wp + points;
    }
  }

  /** Locking points fills the queue up to its size. */
  lemma {:induction false} LockedFills(v: Vehicle, points: seq<word>)
    requires |v.wp| <= MAX_WAYPOINTS
    ensures var room := MAX_WAYPOINTS - |v.wp|;
            Locked(v, points).wp == v.wp + if |points| <= room then points else points[..room]
    decreases |points|
  {
    if points == [] {
      assert v.wp + [] == v.wp;
    } else {
      var init, room := points[..|points| - 1], MAX_WAYPOINTS - |v.wp|;
      LockedFills(v, init);
      if |points| <= room {
        assert v.wp + init + [points[|points| - 1]] == v.wp + points;
      } else {
        assert (if |init| <= room then init else init[..room]) == points[..room];
      }
    }
  }

  // ------------------------------------------------ two runs

  /** A command that neither moves by points nor charges, for which the motion controller is busy. */
  function BusyTurn(params: memory, block: memory): Step { Command(TURNLEFT, 0, params, BUSY, block) }

  function FirstTurn(params: memory): Order { Order(0, TURNLEFT, TURNLEFT, 0, params) }

  lemma AfterBusyTurn(params: memory, block: memory)
    ensures Run([BusyTurn(params, block)], 1) ==
            Parked().(arrived := [FirstTurn(params)], cmds := [Stored(FirstTurn(params), block)],
                      free := MAX_COMMANDS - 1)
  {
    assert Run([BusyTurn(params, block)], 0) == Parked();
  }

  /** A command that waits, and for which the motion controller is still busy when it has finished its last
      action, is lost. */
  lemma WaitingCommandIsLost(params: memory, block: memory)
    ensures var v := Run([BusyTurn(params, block), Motion(ACTION_OVER, BUSY)], 2);
            |v.arrived| == 1 && |v.lost| == 1 && v.issued == [] && v.cmds == []
  {
    AfterBusyTurn(params, block);
    var steps := [BusyTurn(params, block), Motion(ACTION_OVER, BUSY)];
    assert Run(steps, 0) == Parked();
    assert Run(steps, 1) == Run([BusyTurn(params, block)], 1);
  }

  lemma PairOfNumbers(n: Order, o: Order)
    requires n.sent != STOP && o.sent != STOP
    ensures NonStop([n, o]) == [n.id, o.id]
  {
    NonStopOne(n);
    NonStopAppend([n], o);
    assert [n] + [o] == [n, o];
  }

  /** With nothing waiting, a turn that the motion controller takes on is issued at once. */
  lemma {:induction false} TurnIsIssued(v: Vehicle, params: memory, block: memory)
    requires v.cmds == [] && v.free <= MAX_COMMANDS
    ensures var news := [Arrival(TURNLEFT, 0, params, OK, block)];
            Handled(v, news, 1).issued == v.issued + [Order(|v.arrived|, TURNLEFT, TURNLEFT, 0, params)]
  {
    var news := [Arrival(TURNLEFT, 0, params, OK, block)];
    assert Handled(v, news, 0) == v;
    AcceptedPlaces(v, TURNLEFT, 0, params, OK, block);
  }

  /** The only waiting command has been taken from the queue; a second one is issued before it. */
  lemma SecondTurnGoesFirst(params: memory, block: memory)
    ensures var v := Run([BusyTurn(params, block)], 1);
            var u := Handled(v.(cmds := []), [Arrival(TURNLEFT, 0, params, OK, block)], 1);
            v.cmds != [] && NonStop(IssuedLate(u, v.cmds[0], OK).issued) == [1, 0]
  {
    AfterBusyTurn(params, block);
    var v, o := Run([BusyTurn(params, block)], 1), Stored(FirstTurn(params), block);
    assert v.cmds == [o];
    OvertakenTurn(v.(cmds := []), params, block, o);
  }

  /** With nothing issued so far, and the first turn taken from the queue. */
  lemma {:induction false} OvertakenTurn(v: Vehicle, params: memory, block: memory, o: Order)
    requires v.cmds == [] && v.issued == [] && v.free <= MAX_COMMANDS && |v.arrived| == 1
    requires o.action == TURNLEFT && o.sent == TURNLEFT && o.id == 0
    ensures var u := Handled(v, [Arrival(TURNLEFT, 0, params, OK, block)], 1);
            NonStop(IssuedLate(u, o, OK).issued) == [1, 0]
  {
    var n := Order(1, TURNLEFT, TURNLEFT, 0, params);
    var u := Handled(v, [Arrival(TURNLEFT, 0, params, OK, block)], 1);
    TurnIsIssued(v, params, block);
    LatePlaces(u, o, OK);
    assert u.issued + [o] == [n, o];
    PairOfNumbers(n, o);
  }
}
