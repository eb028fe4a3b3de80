/** The vehicle's command pipeline (usr/application/agv.c): commands that the motion controller is too
    busy for wait in a queue and are issued on its events; the way points of a move are locked in
    another queue and released as their tags are seen; each move must start where the last one ends.

    The motion controller's answers are parameters. `Vehicle` is the state with its history: a command is
    numbered by its arrival, and nothing in the code looks at that number.
  */
module AgvCommands {
  import opened LibMem
  import opened OsKernel
  import opened AgvcpFrame

  const GOSTRAIGHT: word := 1
  const TURNLEFT: word := 2
  const TURNRIGHT: word := 3
  const CHARGE: word := 6
  const STOP_CHARGE: word := 7
  const STOP: word := 8
  const GOBACKWARD: word := 10
  const SYS_RESET: word := 21

  const MAX_COMMANDS := 8
  const MAX_PARAMS := 510 // MAX_MOTION_CMD_LEN less the two octets in front
  const MAX_WAYPOINTS := 64
  const TWO_D_DISTANCE := 550
  const ANYWHERE: word := 0xFFFF_FFFF

  /** Memory from a pointer to its end; a read past the end gives 0. */
  type memory = seq<byte>

  function Octet(m: memory, at: nat): byte { if at < |m| then m[at] else 0 }

  /** The word that `NTOHL_COPY` reads. */
  function Word(m: memory, at: nat): (v: word) {
    0x100_0000 * Octet(m, at) + 0x1_0000 * Octet(m, at + 1) + 0x100 * Octet(m, at + 2) + Octet(m, at + 3)
  }

  lemma WordIsBigEndian(m: memory, at: nat)
    requires at + 4 <= |m|
    ensures Word(m, at) == BigValue(m[at..at + 4])
  {
    assert m[at..at + 4] == [m[at], m[at + 1], m[at + 2], m[at + 3]];
    FourOctets(m[at], m[at + 1], m[at + 2], m[at + 3]);
  }

  /** A command: its arrival number, its action as sent and as held now, and its parameters. */
  datatype Order = Order(id: nat, sent: word, action: word, len: nat, params: memory)

  /** Answers of `motionctrl_cmd`, and results of `issue_command`. */
  datatype Answer = OK | BUSY | INVALID | FAILED

  /** Where an accepted move started and ended. */
  datatype Move = Move(start: word, end: word)

  datatype Release = Release(point: word, tag: word)

  datatype WorkState = READY | STOPPED | MOVING | CHARGING

  /** Events that the handlers themselves hand to `motionctrl_event_callback`. */
  datatype Posting = ActionOver(action: word) | WayPointError

  /** What the vehicle shows to the outside: postings, the last command to the charger, the work state, and
      how often a restart of the system was asked for. */
  datatype Signs = Signs(posted: seq<Posting>, charger: bool, work: WorkState, resets: nat)

  datatype Vehicle = Vehicle(
    free: nat, cmds: seq<Order>, wp: seq<word>, last: word,
    arrived: seq<Order>, issued: seq<Order>, lost: seq<Order>,
    asked: seq<word>, refused: seq<word>, released: seq<Release>, moves: seq<Move>, signs: Signs)

  function Parked(): Vehicle {
    Vehicle(MAX_COMMANDS, [], [], ANYWHERE, [], [], [], [], [], [], [], Signs([], false, READY, 0))
  }

  // ------------------------------------------------ issuing

  /** A tag of 0 in a message stands for any tag. */
  function Point(tag: word): word { if tag == 0 then ANYWHERE else tag }

  predicate IsMove(action: word) { action == GOSTRAIGHT || action == GOBACKWARD }

  predicate IsCharging(action: word) { action == CHARGE || action == STOP_CHARGE }

  function Start(o: Order): word { Point(Word(o.params, 8)) }

  /** Division of a signed 32-bit word, toward zero; a move of negative length has no points. */
  function PointCount(o: Order): nat {
    var w := Word(o.params, 0);
    if w < 0x8000_0000 then w / TWO_D_DISTANCE else 0
  }

  /** The first n way points of a move. */
  function Points(params: memory, n: nat): (s: seq<word>)
    ensures |s| == n
  {
    if n == 0 then [] else Points(params, n - 1) + [Point(Word(params, 12 + 4 * (n - 1)))]
  }

  lemma PointsNext(params: memory, n: nat)
    ensures Points(params, n + 1) == Points(params, n) + [Point(Word(params, 12 + 4 * n))]
  {
  }

  function WayPoints(o: Order): seq<word> { Points(o.params, PointCount(o)) }

  /** Where a move ends: its last point, or its start if it has none. */
  function End(o: Order): word {
    if PointCount(o) == 0 then Start(o) else WayPoints(o)[PointCount(o) - 1]
  }

  predicate Joins(end: word, start: word) { start == end || start == ANYWHERE || end == ANYWHERE }

  /** `lock_point`. */
  function LockedOne(v: Vehicle, p: word): Vehicle {
    if QFull(v.wp, MAX_WAYPOINTS) then v.(asked := v.asked + [p], refused := v.refused + [p])
    else v.(asked := v.asked + [p], wp := v.wp + [p])
  }

  function Locked(v: Vehicle, points: seq<word>): Vehicle {
    if points == [] then v else LockedOne(Locked(v, points[..|points| - 1]), points[|points| - 1])
  }

  lemma {:induction false} LockedAppend(v: Vehicle, points: seq<word>, p: word)
    ensures Locked(v, points + [p]) == LockedOne(Locked(v, points), p)
  {
    assert (points + [p])[..|points|] == points;
  }

  lemma {:induction false} LockedAsks(v: Vehicle, points: seq<word>)
    ensures Locked(v, points).asked == v.asked + points
    decreases |points|
  {
    if points == [] {
      assert v.asked + points == v.asked;
    } else {
      var init, p := points[..|points| - 1], points[|points| - 1];
      LockedAsks(v, init);
      assert v.asked + init + [p] == v.asked + points;
    }
  }

  /** The point that a word of a message stands for: any point if it is 0. */
  ghost predicate StandsFor(w: word, p: word) { p != 0 && (p == w || (w == 0 && p == 0xFFFF_FFFF)) }

  lemma {:induction false} PointsAreWords(params: memory, n: nat)
    ensures forall k :: 0 <= k < n ==> StandsFor(Word(params, 12 + 4 * k), Points(params, n)[k])
  {
    if n > 0 {
      PointsAreWords(params, n - 1);
    }
  }

  /** As many as there are whole units of 550 in a distance; a negative one has none. */
  ghost predicate Units(w: word, n: int) {
    if w < 0x8000_0000 then 550 * n <= w < 550 * (n + 1) else n == 0
  }

  lemma EndIsWord(o: Order)
    ensures Units(Word(o.params, 0), PointCount(o))
    ensures StandsFor(Word(o.params, 8 + 4 * PointCount(o)), End(o)) && StandsFor(Word(o.params, 8), Start(o))
  {
    var n := PointCount(o);
    PointsAreWords(o.params, n);
    if n > 0 {
      assert 12 + 4 * (n - 1) == 8 + 4 * n;
    }
  }

  /** From before to after the points of a move have been asked for, one for every 550 millimetres, in the order
      of the message; the move ends at the last of these, or at its start if it has none. */
  ghost predicate AsksByDistance(before: seq<word>, after: seq<word>, params: memory, last: word) {
    var n := |after| - |before|;
    && n >= 0 && before <= after && Units(Word(params, 0), n)
    && (forall k :: 0 <= k < n ==> StandsFor(Word(params, 12 + 4 * k), after[|before| + k]))
    && StandsFor(Word(params, 8 + 4 * n), last)
  }

  lemma WayPointsByDistance(asked: seq<word>, o: Order)
    ensures AsksByDistance(asked, asked + WayPoints(o), o.params, End(o))
  {
    PointsAreWords(o.params, PointCount(o));
    EndIsWord(o);
  }

  /** What `issue_command` returns. */
  function Issuing(v: Vehicle, o: Order, answer: Answer): Answer {
    if IsCharging(o.action) then OK
    else if IsMove(o.action) && v.last != 0 && !Joins(v.last, Start(o)) then INVALID
    else answer
  }

  /** Starting and ending a charge are both reported as actions that are over. */
  function Charged(s: Signs, action: word): Signs {
    s.(posted := s.posted + [ActionOver(action)], charger := action == CHARGE)
  }

  /** A move that is issued locks its points. */
  function Driven(v: Vehicle, o: Order, answer: Answer): Vehicle {
    if Issuing(v, o, answer) == OK && IsMove(o.action) then
      Locked(v, WayPoints(o)).(last := End(o), moves := v.moves + [Move(Start(o), End(o))])
    else
      v
  }

  /** Its effect on the charger, the system and the way points. */
  function Moved(v: Vehicle, o: Order, answer: Answer): Vehicle {
    if IsCharging(o.action) then
      v.(signs := Charged(v.signs, o.action))
    else if o.action == SYS_RESET then
      v.(signs := v.signs.(resets := v.signs.resets + 1))
    else
      Driven(v, o, answer)
  }

  /** An issued move asks for its points by distance. */
  lemma IssuedAsks(v: Vehicle, o: Order, answer: Answer)
    ensures var u := Moved(v, o, answer);
            Issuing(v, o, answer) == OK && IsMove(o.action) ==> AsksByDistance(v.asked, u.asked, o.params, u.last)
  {
    LockedAsks(v, WayPoints(o));
    WayPointsByDistance(v.asked, o);
  }

  /** A command that left the queue or never entered it; an invalid one is reported. */
  function Settled(v: Vehicle, o: Order, r: Answer): Vehicle {
    if r == OK then
      v.(issued := v.issued + [o])
    else
      v.(lost := v.lost + [o], signs := if r == INVALID then Complained(v.signs) else v.signs)
  }

  function Complained(s: Signs): Signs { s.(posted := s.posted + [WayPointError]) }

  // ------------------------------------------------ the handlers

  /** Octets of the parameters that a queued command keeps: the length is stored in one octet. */
  function KeptLength(len: nat): nat { (if len > MAX_PARAMS then MAX_PARAMS else len) % 0x100 }

  /** Octets past the end of memory. */
  function Zeros(n: nat): (z: seq<byte>)
    ensures |z| == n && forall k :: 0 <= k < n ==> z[k] == 0
  {
    if n == 0 then [] else Zeros(n - 1) + [0]
  }

  /** The n octets that are copied, and after them what the block held before. */
  function Overlaid(params: memory, block: memory, n: nat): memory {
    (if n <= |params| then params[..n] else params + Zeros(n - |params|)) + if n <= |block| then block[n..] else []
  }

  /** A command as the queue holds it; block is what the memory held before. */
  function Stored(o: Order, block: memory): Order {
    var n := KeptLength(o.len);
    o.(action := o.action % 0x100, len := n, params := Overlaid(o.params, block, n))
  }

  /** The work state after a command that was neither queued nor invalid, even if it failed. */
  function WorkAfter(action: word, work: WorkState): WorkState {
    if action == STOP then STOPPED
    else if action == CHARGE then CHARGING
    else if action == STOP_CHARGE then READY
    else if action == GOSTRAIGHT || action == TURNLEFT || action == TURNRIGHT then MOVING
    else work
  }

  function Working(v: Vehicle, work: WorkState): Vehicle { v.(signs := v.signs.(work := work)) }

  /** A command that has to wait, if there is a block for it. */
  function Queued(v: Vehicle, o: Order, block: memory): Vehicle {
    if v.free == 0 then
      v.(lost := v.lost + [o])
    else
      v.(free := v.free - 1,
         cmds := if o.action == STOP then QPostFront(v.cmds, MAX_COMMANDS, Stored(o, block))
                 else QPost(v.cmds, MAX_COMMANDS, Stored(o, block)))
  }

  /** A command that is tried at once. */
  function Tried(v: Vehicle, o: Order, answer: Answer, block: memory): Vehicle {
    var r := Issuing(v, o, answer);
    var u := Moved(v, o, answer);
    if r == BUSY then Queued(u, o, block)
    else if r == INVALID then Settled(u, o, r)
    else Working(Settled(u, o, r), WorkAfter(o.action, u.signs.work))
  }

  /** `process_action_cmd`. */
  function Accepted(v0: Vehicle, action: word, len: nat, params: memory, answer: Answer, block: memory): Vehicle {
    var o := Order(|v0.arrived|, action, action, len, params);
    var v := v0.(arrived := v0.arrived + [o]);
    if action == STOP || v.cmds == [] then Tried(v, o, answer, block) else Queued(v, o, block)
  }

  /** The command at the head of the queue is issued and its block freed, whatever the answer. */
  function IssuedNext(v: Vehicle, answer: Answer): Vehicle
    requires v.cmds != []
  {
    var o := v.cmds[0];
    var u := v.(cmds := v.cmds[1..]);
    Settled(Moved(u, o, answer), o, Issuing(u, o, answer)).(free := v.free + 1)
  }

  datatype Event = ACTION_OVER | POINT_ARRIVAL | OTHER_EVENT

  /** `issue_next_cmd`. */
  function Resumed(v: Vehicle, evt: Event, answer: Answer): Vehicle {
    if v.cmds == [] then v
    else match evt
      case ACTION_OVER => IssuedNext(v, answer)
      case POINT_ARRIVAL =>
        if v.cmds[0].action == STOP || v.cmds[0].action == GOSTRAIGHT then IssuedNext(v, answer)
        else v.(cmds := QPostFront(v.cmds[1..], MAX_COMMANDS, v.cmds[0]))
      case OTHER_EVENT => v
  }

  const EINVAL := 0x1010 // PERR_EINVAL

  /** What `issue_next_cmd` returns: 0, the action issued, or the negative error code. */
  function NextResult(v: Vehicle, evt: Event, answer: Answer): int {
    if v.cmds == [] || evt == OTHER_EVENT then 0
    else
      var o := v.cmds[0];
      if evt == POINT_ARRIVAL && o.action != STOP && o.action != GOSTRAIGHT then 0
      else if Issuing(v, o, answer) == INVALID then -EINVAL
      else o.action
  }

  function WorkOn(evt: Event, ret: int): WorkState {
    if (ret == 0 && evt == ACTION_OVER) || ret == STOP_CHARGE then READY
    else if ret == STOP then STOPPED
    else if ret == CHARGE then CHARGING
    else MOVING
  }

  /** The part of `process_motionctrl_event` that handles finished actions and reached points. */
  function Reacted(v: Vehicle, evt: Event, answer: Answer): Vehicle {
    if evt == OTHER_EVENT then v
    else Working(Resumed(v, evt, answer), WorkOn(evt, NextResult(v, evt, answer)))
  }

  datatype Check = Match | NoPoint | Mismatch

  function Checking(v: Vehicle, tag: word): Check {
    if v.wp == [] || v.wp[0] == 0 then NoPoint
    else if v.wp[0] == tag || v.wp[0] == ANYWHERE then Match
    else Mismatch
  }

  /** `check_and_release_point`. */
  function Checked(v: Vehicle, tag: word): Vehicle {
    if v.wp == [] then v
    else match Checking(v, tag)
      case NoPoint => v.(wp := v.wp[1..])
      case Match => v.(wp := v.wp[1..], released := v.released + [Release(v.wp[0], tag)])
      case Mismatch => v.(wp := QPostFront(v.wp[1..], MAX_WAYPOINTS, v.wp[0]))
  }

  // ------------------------------------------------ the code

  method ReadPoint(params: memory, at: nat) returns (point: word)
    ensures point == Point(Word(params, at)) != 0
  {
    point := Word(params, at);
    if point == 0 {
      point := ANYWHERE;
    }
  }

  /** The fields after `last` are logs. */
  class Agv {
    var free: nat
    var cmds: seq<Order>
    var wp: seq<word>
    var last: word
    var arrived: seq<Order>
    var issued: seq<Order>
    var lost: seq<Order>
    var asked: seq<word>
    var refused: seq<word>
    var released: seq<Release>
    var moves: seq<Move>
    var posted: seq<Posting>
    var charger: bool
    var work: WorkState
    var resets: nat

    ghost function State(): Vehicle
      reads this
    {
      Vehicle(free, cmds, wp, last, arrived, issued, lost, asked, refused, released, moves,
              Signs(posted, charger, work, resets))
    }

    ghost predicate Valid()
      reads this
    {
      free + |cmds| == MAX_COMMANDS && PathValid()
    }

    ghost predicate PathValid()
      reads this
    {
      |wp| <= MAX_WAYPOINTS && last != 0
    }

    constructor ()
      ensures Valid() && State() == Parked()
    {
      free, cmds, wp, last := MAX_COMMANDS, [], [], ANYWHERE;
      arrived, issued, lost, asked, refused, released, moves := [], [], [], [], [], [], [];
      posted, charger, work, resets := [], false, READY, 0;
    }

    method LockPoint(point: word) returns (ok: bool)
      requires PathValid()
      modifies `wp, `asked, `refused
      ensures PathValid() && ok == !QFull(old(wp), MAX_WAYPOINTS)
      ensures State() == LockedOne(old(State()), point)
    {
      ok := !QFull(wp, MAX_WAYPOINTS);
      wp := QPost(wp, MAX_WAYPOINTS, point);
      asked := asked + [point];
      if !ok {
        refused := refused + [point];
      }
    }

    method Charge(action: word)
      modifies `posted, `charger
      ensures State() == old(State()).(signs := Charged(old(State()).signs, action))
    {
      charger := action == CHARGE;
      posted := posted + [ActionOver(action)];
    }

    method IssueCommand(o: Order, answer: Answer) returns (r: Answer)
      requires PathValid()
      modifies `wp, `last, `asked, `refused, `moves, `posted, `charger, `resets
      ensures PathValid()
      ensures r == Issuing(old(State()), o, answer) && State() == Moved(old(State()), o, answer)
      ensures r == OK && IsMove(o.action) ==> AsksByDistance(old(asked), asked, o.params, last)
    {
      IssuedAsks(State(), o, answer);
      if o.action == CHARGE || o.action == STOP_CHARGE {
        Charge(o.action);
        return OK;
      } else if o.action == SYS_RESET {
        resets := resets + 1;
      }
      r := IssueMotion(o, answer);
    }

    method IssueMotion(o: Order, answer: Answer) returns (r: Answer)
      requires PathValid() && !IsCharging(o.action)
      modifies `wp, `last, `asked, `refused, `moves
      ensures PathValid()
      ensures r == Issuing(old(State()), o, answer) && State() == Driven(old(State()), o, answer)
    {
      var point: word := 0;
      if (o.action == GOSTRAIGHT || o.action == GOBACKWARD) && last != 0 {
        point := ReadPoint(o.params, 8);
        if point != last && point != ANYWHERE && last != ANYWHERE {
          return INVALID;
        }
      }
      r := answer;
      if r != OK {
        return;
      }
      if o.action == GOSTRAIGHT || o.action == GOBACKWARD {
        point := LockPoints(o, point);
        last := point;
        moves := moves + [Move(Start(o), point)];
      }
    }

    /** The loop of `issue_command` over the points of a move. */
    method LockPoints(o: Order, start: word) returns (point: word)
      requires PathValid() && start == Start(o)
      modifies `wp, `asked, `refused
      ensures PathValid() && point == End(o) != 0
      ensures State() == Locked(old(State()), WayPoints(o))
    {
      point := start;
      var npoint := PointCount(o);
      ghost var v, done := State(), Points(o.params, 0);
      for i := 0 to npoint
        invariant PathValid() && done == Points(o.params, i) && State() == Locked(v, done)
        invariant point == (if i == 0 then start else done[i - 1]) != 0
      {
        point := LockNext(o.params, 12 + 4 * i, v, done);
        PointsNext(o.params, i);
        done := Points(o.params, i + 1);
      }
    }

    method LockNext(params: memory, at: nat, ghost v: Vehicle, ghost done: seq<word>) returns (point: word)
      requires PathValid() && State() == Locked(v, done)
      modifies `wp, `asked, `refused
      ensures PathValid() && State() == Locked(v, done + [point])
      ensures point == Point(Word(params, at)) != 0
    {
      point := ReadPoint(params, at);
      LockedAppend(v, done, point);
      var _ := LockPoint(point);
    }

    method ProcessActionCmd(action: word, len: nat, params: memory, answer: Answer, block: memory)
      requires Valid()
      modifies this
      ensures Valid()
      ensures State() == Accepted(old(State()), action, len, params, answer, block)
    {
      var o := Order(|arrived|, action, action, len, params);
      arrived := arrived + [o];
      if action == STOP {
        TryCommand(o, answer, block);
      } else {
        if |cmds| == 0 {
          TryCommand(o, answer, block);
        } else {
          Enqueue(o, block);
        }
      }
    }

    /** Issues the command, and queues it if the motion controller is busy. */
    method TryCommand(o: Order, answer: Answer, block: memory)
      requires Valid()
      modifies this
      ensures Valid() && State() == Tried(old(State()), o, answer, block)
    {
      var ret := IssueCommand(o, answer);
      if ret == BUSY {
        Enqueue(o, block);
      } else {
        Settle(o, ret);
        if ret != INVALID {
          work := WorkAfter(o.action, work);
        }
      }
    }

    method Enqueue(o: Order, block: memory)
      requires Valid()
      modifies `free, `cmds, `lost
      ensures Valid() && State() == Queued(old(State()), o, block)
    {
      if free == 0 {
        lost := lost + [o];
        return;
      }
      free := free - 1;
      var data := Stored(o, block);
      if o.action == STOP {
        cmds := QPostFront(cmds, MAX_COMMANDS, data);
      } else {
        cmds := QPost(cmds, MAX_COMMANDS, data);
      }
    }

    /** The records of a command that was tried, and the report if it was invalid. */
    method Settle(o: Order, r: Answer)
      modifies `issued, `lost, `posted
      ensures State() == Settled(old(State()), o, r)
    {
      if r == OK {
        issued := issued + [o];
      } else {
        lost := lost + [o];
        if r == INVALID {
          posted := posted + [WayPointError];
        }
      }
    }

    method IssueNextCmd(evt: Event, answer: Answer) returns (ret: int)
      requires Valid()
      modifies this
      ensures Valid()
      ensures ret == NextResult(old(State()), evt, answer)
      ensures State() == Resumed(old(State()), evt, answer)
    {
      if evt == OTHER_EVENT || cmds == [] {
        return 0;
      }
      var action := cmds[0].action;
      if evt == ACTION_OVER || action == STOP || action == GOSTRAIGHT {
        ret := IssueHead(answer);
      } else {
        var data := cmds[0];
        cmds := cmds[1..];
        cmds := QPostFront(cmds, MAX_COMMANDS, data);
        ret := 0;
      }
    }

    /** Takes the head of the queue, issues it and frees its block. */
    method IssueHead(answer: Answer) returns (ret: int)
      requires Valid() && cmds != []
      modifies this
      ensures Valid() && State() == IssuedNext(old(State()), answer)
      ensures ret == if Issuing(old(State()), old(cmds[0]), answer) == INVALID then -EINVAL else old(cmds[0]).action
    {
      var data := cmds[0];
      cmds := cmds[1..];
      var r := IssueCommand(data, answer);
      Settle(data, r);
      ret := if r == INVALID then -EINVAL else data.action;
      free := free + 1;
    }

    method ProcessMotionEvent(evt: Event, answer: Answer)
      requires Valid()
      modifies this
      ensures Valid() && State() == Reacted(old(State()), evt, answer)
    {
      if evt == ACTION_OVER || evt == POINT_ARRIVAL {
        var ret := IssueNextCmd(evt, answer);
        if (ret == 0 && evt == ACTION_OVER) || ret == STOP_CHARGE {
          work := READY;
        } else if ret == STOP {
          work := STOPPED;
        } else if ret == CHARGE {
          work := CHARGING;
        } else {
          work := MOVING;
        }
      }
    }

    method CheckAndReleasePoint(tag: word) returns (r: Check)
      requires Valid()
      modifies `wp, `released
      ensures Valid()
      ensures r == Checking(old(State()), tag) && State() == Checked(old(State()), tag)
    {
      if wp == [] {
        return NoPoint;
      }
      var expected := wp[0];
      wp := wp[1..];
      if expected == 0 {
        r := NoPoint;
      } else if expected == tag || expected == ANYWHERE {
        r := Match;
        released := released + [Release(expected, tag)];
      } else {
        r := Mismatch;
        wp := QPostFront(wp, MAX_WAYPOINTS, expected);
      }
    }
  }
}
