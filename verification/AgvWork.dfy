/** What the vehicle shows to the outside, over every run of the command pipeline's handlers: its work state,
    the charger, and its reports.
  */
module AgvWork {
  import opened OsKernel
  import opened AgvcpFrame
  import opened AgvCommands
  import opened AgvCommandLaws

  // ------------------------------------------------ one command handed to `issue_command`

  /** What `issue_command` answers, for each kind of command: charging never fails; a move that does not start
      where the last one ended is invalid; all else is the motion controller's answer. */
  lemma IssuingExactly(v: Vehicle, o: Order, answer: Answer)
    ensures o.action == 6 || o.action == 7 ==> Issuing(v, o, answer) == OK
    ensures o.action == 1 || o.action == 10 ==>
              var p := Word(o.params, 8);
              Issuing(v, o, answer) ==
                if p == v.last || p == 0 || p == 0xFFFF_FFFF || v.last == 0xFFFF_FFFF || v.last == 0
                then answer else INVALID
    ensures o.action !in {1, 6, 7, 10} ==> Issuing(v, o, answer) == answer
  {
  }

  /** The command that a step hands to `issue_command`: a new one if it is STOP or nothing waits; on a finished
      action the one that waits first; on a reached point that one if it is STOP or a straight move. */
  function HandedOver(v: Vehicle, step: Step): Option<Order> {
    match step
    case Command(action, len, params, answer, block) =>
      if action == 8 || v.cmds == [] then Some(Order(|v.arrived|, action, action, len, params)) else None
    case Motion(evt, answer) =>
      if v.cmds == [] then None
      else if evt == ACTION_OVER || (evt == POINT_ARRIVAL && (v.cmds[0].action == 8 || v.cmds[0].action == 1))
      then Some(v.cmds[0]) else None
    case Tag(_) => None
  }

  function AnswerOf(step: Step): Answer
    requires !step.Tag?
  {
    step.answer
  }

  /** What handing over o with result r does to the signs, but for the work state. */
  ghost predicate Signalled(s: Signs, t: Signs, o: Order, r: Answer) {
    && t.posted == s.posted + (if o.action == 6 || o.action == 7 then [ActionOver(o.action)]
                               else if r == INVALID then [WayPointError] else [])
    && t.charger == (if o.action == 6 then true else if o.action == 7 then false else s.charger)
    && t.resets == s.resets + (if o.action == 21 then 1 else 0)
  }

  /** A command that is handed over is issued exactly when the answer is OK, and shows exactly that; a waiting one
      leaves the queue whatever the answer. */
  lemma HandedOverExactly(v: Vehicle, step: Step, o: Order)
    requires HandedOver(v, step) == Some(o) && v.free + |v.cmds| <= MAX_COMMANDS
    ensures var u, r := Apply(v, step), Issuing(v, o, AnswerOf(step));
            && u.issued == (if r == OK then v.issued + [o] else v.issued)
            && Signalled(v.signs, u.signs, o, r)
            && (step.Motion? ==> u.cmds == v.cmds[1..] && u.free == v.free + 1)
  {
    match step
    case Command(action, len, params, answer, block) =>
      AcceptedPlaces(v, action, len, params, answer, block);
      MovingShows(v.(arrived := v.arrived + [o]), o, answer);
    case Motion(evt, answer) =>
      MovingShows(v.(cmds := v.cmds[1..]), o, answer);
  }

  lemma MovingShows(v: Vehicle, o: Order, answer: Answer)
    ensures var u := Moved(v, o, answer);
            u == v.(wp := u.wp, last := u.last, asked := u.asked, refused := u.refused, moves := u.moves,
                    signs := u.signs)
    ensures Issuing(v, o, answer) == OK || !IsCharging(o.action)
    ensures Signalled(v.signs, Moved(v, o, answer).signs, o, if Issuing(v, o, answer) == INVALID then FAILED else OK)
    ensures Moved(v, o, answer).signs.work == v.signs.work
  {
    MovingKeepsCommands(v, o, answer);
    LockingKeepsCommands(v, WayPoints(o));
    assert v.signs.posted + [] == v.signs.posted;
  }

  /** A step that hands nothing over issues nothing and shows nothing but, perhaps, another work state. */
  lemma NothingHandedOver(v: Vehicle, step: Step)
    requires v.free + |v.cmds| <= MAX_COMMANDS && HandedOver(v, step) == None
    ensures var u := Apply(v, step);
            u.issued == v.issued && u.signs == v.signs.(work := u.signs.work) && (!step.Command? ==> u.cmds == v.cmds)
  {
    match step
    case Command(action, len, params, answer, block) =>
    case Motion(evt, answer) =>
      if v.cmds != [] {
        assert [v.cmds[0]] + v.cmds[1..] == v.cmds;
      }
    case Tag(tag) =>
  }

  /** What `issue_next_cmd` returns tells the action handed over, that it was invalid, or that there was none. */
  lemma ResultTells(v: Vehicle, evt: Event, answer: Answer)
    ensures NextResult(v, evt, answer) ==
            match HandedOver(v, Motion(evt, answer))
            case None => 0
            case Some(o) => if Issuing(v, o, answer) == INVALID then -0x1010 else o.action
  {
  }

  // ------------------------------------------------ resets and invalid moves

  predicate AsksForReset(v: Vehicle, step: Step) {
    HandedOver(v, step).Some? && HandedOver(v, step).value.action == 21
  }

  predicate IsRefused(v: Vehicle, step: Step) {
    HandedOver(v, step).Some? && Issuing(v, HandedOver(v, step).value, AnswerOf(step)) == INVALID
  }

  /** How many of the first n steps ask for a reset, and how many hand over an invalid command. */
  function ResetsAsked(steps: seq<Step>, n: nat): nat
    requires n <= |steps|
  {
    if n == 0 then 0 else ResetsAsked(steps, n - 1) + if AsksForReset(Run(steps, n - 1), steps[n - 1]) then 1 else 0
  }

  function Refusals(steps: seq<Step>, n: nat): nat
    requires n <= |steps|
  {
    if n == 0 then 0 else Refusals(steps, n - 1) + if IsRefused(Run(steps, n - 1), steps[n - 1]) then 1 else 0
  }

  function Errors(posted: seq<Posting>): nat {
    if posted == [] then 0
    else Errors(posted[..|posted| - 1]) + if posted[|posted| - 1] == WayPointError then 1 else 0
  }

  lemma {:induction false} OneMoreError(posted: seq<Posting>, p: Posting)
    ensures Errors(posted + [p]) == Errors(posted) + if p == WayPointError then 1 else 0
  {
    assert (posted + [p])[..|posted|] == posted;
  }

  lemma StepCounts(v: Vehicle, step: Step)
    requires v.free + |v.cmds| == MAX_COMMANDS
    ensures var s, t := v.signs, Apply(v, step).signs;
            && t.resets == s.resets + (if AsksForReset(v, step) then 1 else 0)
            && Errors(t.posted) == Errors(s.posted) + if IsRefused(v, step) then 1 else 0
  {
    if HandedOver(v, step).Some? {
      var o := HandedOver(v, step).value;
      HandedOverExactly(v, step, o);
      IssuingExactly(v, o, AnswerOf(step));
      OneMoreError(v.signs.posted, WayPointError);
      OneMoreError(v.signs.posted, ActionOver(o.action));
      assert v.signs.posted + [] == v.signs.posted;
    } else {
      NothingHandedOver(v, step);
    }
  }

  /** After every run, as many resets have been asked for as commands to that effect were handed over. */
  lemma {:induction false} ResetsFollow(steps: seq<Step>, n: nat)
    requires n <= |steps|
    ensures Run(steps, n).signs.resets == ResetsAsked(steps, n)
  {
    if n > 0 {
      ResetsFollow(steps, n - 1);
      RunKeepsBlocks(steps, n - 1);
      StepCounts(Run(steps, n - 1), steps[n - 1]);
    }
  }

  /** And as many errors were reported as invalid commands were handed over. */
  lemma {:induction false} ErrorsFollow(steps: seq<Step>, n: nat)
    requires n <= |steps|
    ensures Errors(Run(steps, n).signs.posted) == Refusals(steps, n)
  {
    if n > 0 {
      ErrorsFollow(steps, n - 1);
      RunKeepsBlocks(steps, n - 1);
      StepCounts(Run(steps, n - 1), steps[n - 1]);
    }
  }

  lemma {:induction false} RunKeepsBlocks(steps: seq<Step>, n: nat)
    requires n <= |steps|
    ensures Run(steps, n).free + |Run(steps, n).cmds| == MAX_COMMANDS
  {
    forall v: Vehicle, step: Step | v.free + |v.cmds| == MAX_COMMANDS
      ensures Apply(v, step).free + |Apply(v, step).cmds| == MAX_COMMANDS
    {
      StepKeepsBlocks(v, step);
    }
    RunInduction((v: Vehicle) => v.free + |v.cmds| == MAX_COMMANDS, steps, n);
  }

  // ------------------------------------------------ the charger

  /** The charger was last switched on. */
  function Charging(issued: seq<Order>): bool {
    if issued == [] then false
    else
      var last := issued[|issued| - 1].action;
      last == 6 || (last != 7 && Charging(issued[..|issued| - 1]))
  }

  /** The charging commands among the issued ones. */
  function ChargeActions(issued: seq<Order>): seq<word> {
    if issued == [] then []
    else
      var last := issued[|issued| - 1].action;
      ChargeActions(issued[..|issued| - 1]) + if last == 6 || last == 7 then [last] else []
  }

  /** The actions that were reported as over. */
  function Overs(posted: seq<Posting>): seq<word> {
    if posted == [] then []
    else
      var last := posted[|posted| - 1];
      Overs(posted[..|posted| - 1]) + if last.ActionOver? then [last.action] else []
  }

  ghost predicate ChargeInv(v: Vehicle) {
    v.signs.charger == Charging(v.issued) && Overs(v.signs.posted) == ChargeActions(v.issued)
    && v.free + |v.cmds| == MAX_COMMANDS
  }

  lemma {:induction false} OneMoreCharge(issued: seq<Order>, o: Order)
    ensures Charging(issued + [o]) == if o.action == 6 then true else if o.action == 7 then false else Charging(issued)
    ensures ChargeActions(issued + [o]) ==
            ChargeActions(issued) + if o.action == 6 || o.action == 7 then [o.action] else []
  {
    assert (issued + [o])[..|issued|] == issued;
  }

  lemma {:induction false} OneMorePosting(posted: seq<Posting>, p: Posting)
    ensures Overs(posted + [p]) == Overs(posted) + if p.ActionOver? then [p.action] else []
  {
    assert (posted + [p])[..|posted|] == posted;
  }

  /** Handing a command over. */
  lemma SignalledKeepsCharge(issued: seq<Order>, s: Signs, t: Signs, o: Order, r: Answer)
    requires s.charger == Charging(issued) && Overs(s.posted) == ChargeActions(issued)
    requires Signalled(s, t, o, r) && (o.action == 6 || o.action == 7 ==> r == OK)
    ensures var now := if r == OK then issued + [o] else issued;
            t.charger == Charging(now) && Overs(t.posted) == ChargeActions(now)
  {
    OneMoreCharge(issued, o);
    OneMorePosting(s.posted, ActionOver(o.action));
    OneMorePosting(s.posted, WayPointError);
    assert s.posted + [] == s.posted && Overs(s.posted) + [] == Overs(s.posted);
    assert ChargeActions(issued) + [] == ChargeActions(issued);
  }

  lemma StepKeepsCharge(v: Vehicle, step: Step)
    requires ChargeInv(v)
    ensures ChargeInv(Apply(v, step))
  {
    StepKeepsBlocks(v, step);
    if HandedOver(v, step).Some? {
      var o := HandedOver(v, step).value;
      HandedOverExactly(v, step, o);
      IssuingExactly(v, o, AnswerOf(step));
      SignalledKeepsCharge(v.issued, v.signs, Apply(v, step).signs, o, Issuing(v, o, AnswerOf(step)));
    } else {
      NothingHandedOver(v, step);
    }
  }

  lemma StepKeepsBlocks(v: Vehicle, step: Step)
    requires v.free + |v.cmds| == MAX_COMMANDS
    ensures Apply(v, step).free + |Apply(v, step).cmds| == MAX_COMMANDS
  {
    match step
    case Command(action, len, params, answer, block) => AcceptedPlaces(v, action, len, params, answer, block);
    case Motion(evt, answer) =>
      if v.cmds != [] {
        NextPlaces(v, answer);
        EitherIssuedOrSame(v, evt, answer);
      }
    case Tag(tag) =>
  }

  /** After every run the charger is on exactly when the last charging command issued was to start, and the
      actions reported as over are the charging commands issued, in order. */
  lemma {:induction false} ChargerFollows(steps: seq<Step>)
    ensures var v := Run(steps, |steps|);
            v.signs.charger == Charging(v.issued) && Overs(v.signs.posted) == ChargeActions(v.issued)
  {
    forall v: Vehicle, step: Step | ChargeInv(v) ensures ChargeInv(Apply(v, step)) {
      StepKeepsCharge(v, step);
    }
    RunInduction(v => ChargeInv(v), steps, |steps|);
  }

  // ------------------------------------------------ the work state

  /** The step sets the work state: a command whose action has one, and that was neither put off nor invalid; a
      finished action; a reached point. */
  ghost predicate SetsWork(v: Vehicle, step: Step) {
    match step
    case Command(action, len, params, answer, block) =>
      var o := Order(|v.arrived|, action, action, len, params);
      action in {1, 2, 3, 6, 7, 8} && (action == 8 || v.cmds == []) && Issuing(v, o, answer) !in {BUSY, INVALID}
    case Motion(evt, _) => evt == ACTION_OVER || evt == POINT_ARRIVAL
    case Tag(_) => false
  }

  /** What a command shows once it is issued. */
  ghost predicate Shows(action: word, work: WorkState) {
    && (action == 8 ==> work == STOPPED)
    && (action == 6 ==> work == CHARGING)
    && (action == 7 ==> work == READY)
    && (action !in {6, 7, 8} ==> work == MOVING)
  }

  /** The work state that such a step sets. An event that issues nothing shows a parked vehicle if an action is
      over, and a moving one if a point was reached; an invalid command shows a moving one. */
  ghost predicate WorkSet(v: Vehicle, step: Step, work: WorkState) {
    match step
    case Command(action, _, _, _, _) => Shows(action, work)
    case Motion(evt, answer) =>
      if v.cmds == [] then
        work == if evt == ACTION_OVER then READY else MOVING
      else
        var o := v.cmds[0];
        if evt == POINT_ARRIVAL && o.action != 8 && o.action != 1 then work == MOVING
        else if Issuing(v, o, answer) == INVALID then work == MOVING
        else if o.action == 0 then work == if evt == ACTION_OVER then READY else MOVING
        else Shows(o.action, work)
    case Tag(_) => false
  }

  lemma StepSetsWork(v: Vehicle, step: Step)
    ensures if SetsWork(v, step) then WorkSet(v, step, Apply(v, step).signs.work)
            else Apply(v, step).signs.work == v.signs.work
  {
    match step
    case Command(action, len, params, answer, block) =>
      MovingShows(v.(arrived := v.arrived + [Order(|v.arrived|, action, action, len, params)]),
                  Order(|v.arrived|, action, action, len, params), answer);
    case Motion(evt, answer) =>
    case Tag(tag) =>
  }

  /** One past the last of the first n steps that set the work state, 0 if there is none. */
  ghost function LastSet(steps: seq<Step>, n: nat): (k: nat)
    requires n <= |steps|
    ensures k <= n
  {
    if n == 0 then 0 else if SetsWork(Run(steps, n - 1), steps[n - 1]) then n else LastSet(steps, n - 1)
  }

  /** After every run the work state is the one that the last such step has set; a vehicle is ready before. */
  lemma {:induction false} WorkStateFollows(steps: seq<Step>, n: nat)
    requires n <= |steps|
    ensures var k, work := LastSet(steps, n), Run(steps, n).signs.work;
            if k == 0 then work == READY else WorkSet(Run(steps, k - 1), steps[k - 1], work)
  {
    if n > 0 {
      WorkStateFollows(steps, n - 1);
      StepSetsWork(Run(steps, n - 1), steps[n - 1]);
    }
  }

  /** A command issued on arrival and the same command issued when an action is over show the same work state
      if it is one of the six with a work state of their own; any other only if that state was shown already. */
  lemma SameWorkExactly(v: Vehicle, action: word, len: nat, params: memory, block: memory, q: Order)
    requires v.cmds == [] && q.action == action
    requires Issuing(v, Order(|v.arrived|, action, action, len, params), OK) == OK && Issuing(v, q, OK) == OK
    ensures var now := Accepted(v, action, len, params, OK, block).signs.work;
            var later := Reacted(v.(cmds := [q]), ACTION_OVER, OK).signs.work;
            now == later <==>
              action in {1, 2, 3, 6, 7, 8} || v.signs.work == if action == 0 then READY else MOVING
  {
    StepSetsWork(v, Command(action, len, params, OK, block));
    StepSetsWork(v.(cmds := [q]), Motion(ACTION_OVER, OK));
  }
}
