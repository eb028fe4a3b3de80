/** What the command pipeline keeps over every run of its handlers, each of them one step. */
module AgvCommandLaws {
  import opened AgvcpFrame
  import opened AgvCommands

  // ------------------------------------------------ commands in the queue

  /** A queued command keeps its length exactly when that is at most 255, and then its parameters. */
  lemma StoredIntact(o: Order, block: memory)
    requires o.len <= |o.params|
    ensures Stored(o, block).len == o.len <==> o.len <= 0xFF
    ensures o.len <= 0xFF ==> Stored(o, block).params[..o.len] == o.params[..o.len]
    ensures Stored(o, block).action == o.action <==> o.action <= 0xFF
  {
  }

  /** What the queue keeps of any command: one octet each of its action and of its length, which is cut to 510
      first; as many octets of its parameters; and behind them what the block held before. */
  lemma StoredExactly(o: Order, block: memory)
    ensures var q := Stored(o, block);
            && q.id == o.id && q.sent == o.sent && q.action == o.action % 0x100
            && q.len == (if o.len < 256 then o.len else if o.len <= 510 then o.len - 256 else 254)
            && (forall k :: 0 <= k < q.len ==> Octet(q.params, k) == Octet(o.params, k))
            && (forall k :: q.len <= k ==> Octet(q.params, k) == Octet(block, k))
  {
  }

  /** A move whose parameters are all within its length and fit the queue is the same move after having
      waited: same start, same points, same end. */
  lemma QueuedMoveIsSame(o: Order, block: memory)
    requires 12 + 4 * PointCount(o) <= o.len <= 0xFF && o.len <= |o.params|
    ensures var q := Stored(o, block);
            Start(q) == Start(o) && WayPoints(q) == WayPoints(o) && End(q) == End(o)
  {
    var q := Stored(o, block);
    StoredWord(o, block, 0);
    StoredWord(o, block, 8);
    StoredPoints(o, block, PointCount(o));
  }

  lemma StoredWord(o: Order, block: memory, at: nat)
    requires at + 4 <= o.len <= 0xFF && o.len <= |o.params|
    ensures Word(Stored(o, block).params, at) == Word(o.params, at)
  {
    var q := Stored(o, block);
    assert forall k :: at <= k < at + 4 ==> Octet(q.params, k) == Octet(o.params, k);
  }

  lemma {:induction false} StoredPoints(o: Order, block: memory, n: nat)
    requires 12 + 4 * n <= o.len <= 0xFF && o.len <= |o.params|
    ensures Points(Stored(o, block).params, n) == Points(o.params, n)
  {
    if n > 0 {
      StoredPoints(o, block, n - 1);
      StoredWord(o, block, 12 + 4 * (n - 1));
    }
  }

  // ------------------------------------------------ runs

  datatype Step =
    | Command(action: word, len: nat, params: memory, answer: Answer, block: memory)
    | Motion(evt: Event, answer: Answer)
    | Tag(tag: word)

  function Apply(v: Vehicle, step: Step): Vehicle {
    match step
    case Command(action, len, params, answer, block) => Accepted(v, action, len, params, answer, block)
    case Motion(evt, answer) => Reacted(v, evt, answer)
    case Tag(tag) => Checked(v, tag)
  }

  function Run(steps: seq<Step>, n: nat): Vehicle
    requires n <= |steps|
  {
    if n == 0 then Parked() else Apply(Run(steps, n - 1), steps[n - 1])
  }

  /** What holds of the parked vehicle and is kept by every step holds after every run. */
  lemma {:induction false} RunInduction(p: Vehicle -> bool, steps: seq<Step>, n: nat)
    requires n <= |steps| && p(Parked())
    requires forall v: Vehicle, step: Step :: p(v) ==> p(Apply(v, step))
    ensures p(Run(steps, n))
  {
    if n > 0 {
      RunInduction(p, steps, n - 1);
    }
  }

  // ------------------------------------------------ command order

  /** Arrival numbers of the commands other than STOP. */
  function NonStop(s: seq<Order>): seq<nat> {
    if s == [] then [] else NonStop(s[..|s| - 1]) + One(s[|s| - 1])
  }

  function One(o: Order): seq<nat> { if o.sent == STOP then [] else [o.id] }

  lemma NonStopOne(o: Order)
    ensures NonStop([o]) == One(o)
  {
    assert [o][..0] == [];
  }

  lemma {:induction false} NonStopJoins(s: seq<Order>, t: seq<Order>)
    ensures NonStop(s + t) == NonStop(s) + NonStop(t)
    decreases |t|
  {
    if t == [] {
      assert s + t == s;
    } else {
      var u, o := t[..|t| - 1], t[|t| - 1];
      assert (s + t)[..|s + t| - 1] == s + u;
      NonStopJoins(s, u);
    }
  }

  ghost predicate Increasing(ids: seq<nat>) {
    forall i, j :: 0 <= i < j < |ids| ==> ids[i] < ids[j]
  }

  /** Arrival numbers of any commands. */
  function Ids(s: seq<Order>): seq<nat> { seq(|s|, k requires 0 <= k < |s| => s[k].id) }

  /** Arrival numbers below n: those in place, those lost, and all of them. */
  ghost predicate Ordered(there: seq<nat>, lost: seq<nat>, all: seq<nat>, n: nat) {
    && Increasing(there) && (forall k :: 0 <= k < |there| ==> there[k] < n)
    && |there| + |lost| == |all|
    && (lost == [] ==> there == all)
  }

  /** Commands are numbered by their arrival. */
  ghost predicate Numbered(arrived: seq<Order>) { forall k :: 0 <= k < |arrived| ==> arrived[k].id == k }

  /** Every command is in one place. */
  ghost predicate Placed(arrived: seq<Order>, issued: seq<Order>, cmds: seq<Order>, lost: seq<Order>) {
    multiset(Ids(issued)) + multiset(Ids(cmds)) + multiset(Ids(lost)) == multiset(Ids(arrived))
  }

  /** A command keeps its number and its action as sent; otherwise it is as it arrived, or as it was stored. */
  ghost predicate CameFrom(arrived: seq<Order>, s: seq<Order>) {
    forall k :: 0 <= k < |s| ==> s[k].id < |arrived| && IsOf(s[k], arrived[s[k].id])
  }

  ghost predicate IsOf(o: Order, a: Order) {
    o.id == a.id && o.sent == a.sent && (o == a || exists block :: o == Stored(a, block))
  }

  ghost predicate Origins(v: Vehicle) {
    && Numbered(v.arrived)
    && CameFrom(v.arrived, v.issued) && CameFrom(v.arrived, v.cmds) && CameFrom(v.arrived, v.lost)
  }

  ghost predicate OrderInv(v: Vehicle) {
    && v.free + |v.cmds| == MAX_COMMANDS && Origins(v)
    && InOrder(v.arrived, v.issued, v.cmds, v.lost) && Placed(v.arrived, v.issued, v.cmds, v.lost)
  }

  lemma IdsAppend(s: seq<Order>, o: Order)
    ensures multiset(Ids(s + [o])) == multiset(Ids(s)) + multiset{o.id}
    ensures multiset(Ids([o] + s)) == multiset(Ids(s)) + multiset{o.id}
  {
    assert Ids(s + [o]) == Ids(s) + [o.id];
    assert Ids([o] + s) == [o.id] + Ids(s);
  }

  lemma {:induction false} NonStopAppend(s: seq<Order>, o: Order)
    ensures NonStop(s + [o]) == NonStop(s) + One(o)
    ensures NonStop([o] + s) == One(o) + NonStop(s)
  {
    NonStopOne(o);
    NonStopJoins(s, [o]);
    NonStopJoins([o], s);
  }

  lemma NewcomerOrdered(there: seq<nat>, lost: seq<nat>, all: seq<nat>, n: nat)
    requires Ordered(there, lost, all, n)
    ensures Ordered(there + [n], lost, all + [n], n + 1)
    ensures Ordered(there, lost + [n], all + [n], n + 1)
    ensures Ordered(there, lost, all, n + 1)
  {
  }

  lemma LeaverOrdered(before: seq<nat>, one: seq<nat>, after: seq<nat>, lost: seq<nat>, all: seq<nat>, n: nat)
    requires Ordered(before + (one + after), lost, all, n)
    ensures Ordered((before + one) + after, lost, all, n)
    ensures Ordered(before + after, lost + one, all, n)
  {
    var was, now := before + (one + after), before + after;
    assert (before + one) + after == was;
    forall i, j | 0 <= i < j < |now| ensures now[i] < now[j] {
      assert was[if i < |before| then i else i + |one|] < was[if j < |before| then j else j + |one|];
    }
    forall k | 0 <= k < |now| ensures now[k] < n {
      assert was[if k < |before| then k else k + |one|] < n;
    }
    if lost + one == [] {
      assert now == was;
    }
  }

  lemma ArrivesPlaced(arrived: seq<Order>, issued: seq<Order>, cmds: seq<Order>, lost: seq<Order>, o: Order, q: Order)
    requires Placed(arrived, issued, cmds, lost) && o.id == q.id
    ensures Placed(arrived + [o], issued + [o], cmds, lost) && Placed(arrived + [o], issued, cmds, lost + [o])
    ensures Placed(arrived + [o], issued, cmds + [q], lost) && Placed(arrived + [o], issued, [q] + cmds, lost)
  {
    IdsAppend(arrived, o);
    IdsAppend(issued, o);
    IdsAppend(lost, o);
    IdsAppend(cmds, q);
  }

  lemma LeavesPlaced(arrived: seq<Order>, issued: seq<Order>, cmds: seq<Order>, lost: seq<Order>, o: Order)
    requires Placed(arrived, issued, [o] + cmds, lost)
    ensures Placed(arrived, issued + [o], cmds, lost) && Placed(arrived, issued, cmds, lost + [o])
  {
    IdsAppend(cmds, o);
    IdsAppend(issued, o);
    IdsAppend(lost, o);
  }

  /** The commands other than STOP, in place, lost, and altogether. */
  ghost predicate InOrder(arrived: seq<Order>, issued: seq<Order>, cmds: seq<Order>, lost: seq<Order>) {
    Ordered(NonStop(issued) + NonStop(cmds), NonStop(lost), NonStop(arrived), |arrived|)
  }

  lemma IssuedInOrder(arrived: seq<Order>, issued: seq<Order>, lost: seq<Order>, o: Order)
    requires InOrder(arrived, issued, [], lost) && o.id == |arrived|
    ensures InOrder(arrived + [o], issued + [o], [], lost)
  {
    NonStopAppend(arrived, o);
    NonStopAppend(issued, o);
    var i, l, a := NonStop(issued), NonStop(lost), NonStop(arrived);
    assert i + [] == i && i + One(o) + [] == i + One(o);
    NewcomerOrdered(i, l, a, o.id);
    assert One(o) == [] ==> i + One(o) == i && a + One(o) == a;
  }

  lemma StopIssuedInOrder(arrived: seq<Order>, issued: seq<Order>, cmds: seq<Order>, lost: seq<Order>, o: Order)
    requires InOrder(arrived, issued, cmds, lost) && o.id == |arrived| && o.sent == STOP
    ensures InOrder(arrived + [o], issued + [o], cmds, lost)
  {
    NonStopAppend(arrived, o);
    NonStopAppend(issued, o);
    NewcomerOrdered(NonStop(issued) + NonStop(cmds), NonStop(lost), NonStop(arrived), o.id);
    assert NonStop(issued) + [] == NonStop(issued) && NonStop(arrived) + [] == NonStop(arrived);
  }

  lemma LostInOrder(arrived: seq<Order>, issued: seq<Order>, cmds: seq<Order>, lost: seq<Order>, o: Order)
    requires InOrder(arrived, issued, cmds, lost) && o.id == |arrived|
    ensures InOrder(arrived + [o], issued, cmds, lost + [o])
  {
    NonStopAppend(arrived, o);
    NonStopAppend(lost, o);
    var i, c, l, a := NonStop(issued), NonStop(cmds), NonStop(lost), NonStop(arrived);
    NewcomerOrdered(i + c, l, a, o.id);
    assert One(o) == [] ==> l + One(o) == l && a + One(o) == a;
  }

  lemma WaitsLastInOrder(arrived: seq<Order>, issued: seq<Order>, cmds: seq<Order>, lost: seq<Order>,
                         o: Order, q: Order)
    requires InOrder(arrived, issued, cmds, lost) && o.id == q.id == |arrived| && o.sent == q.sent != STOP
    ensures InOrder(arrived + [o], issued, cmds + [q], lost)
  {
    NonStopAppend(arrived, o);
    NonStopAppend(cmds, q);
    var i, c, l, a := NonStop(issued), NonStop(cmds), NonStop(lost), NonStop(arrived);
    NewcomerOrdered(i + c, l, a, o.id);
    assert i + (c + One(q)) == i + c + One(q);
  }

  lemma WaitsFirstInOrder(arrived: seq<Order>, issued: seq<Order>, cmds: seq<Order>, lost: seq<Order>,
                          o: Order, q: Order)
    requires InOrder(arrived, issued, cmds, lost) && o.id == q.id == |arrived| && o.sent == q.sent == STOP
    ensures InOrder(arrived + [o], issued, [q] + cmds, lost)
  {
    NonStopAppend(arrived, o);
    NonStopAppend(cmds, q);
    NewcomerOrdered(NonStop(issued) + NonStop(cmds), NonStop(lost), NonStop(arrived), o.id);
    assert [] + NonStop(cmds) == NonStop(cmds) && NonStop(arrived) + [] == NonStop(arrived);
  }

  /** What happens to the command at the head of the queue. */
  lemma LeavesInOrder(arrived: seq<Order>, issued: seq<Order>, cmds: seq<Order>, lost: seq<Order>, o: Order)
    requires InOrder(arrived, issued, [o] + cmds, lost)
    ensures InOrder(arrived, issued + [o], cmds, lost)
    ensures InOrder(arrived, issued, cmds, lost + [o])
  {
    NonStopAppend(cmds, o);
    NonStopAppend(issued, o);
    NonStopAppend(lost, o);
    LeaverOrdered(NonStop(issued), One(o), NonStop(cmds), NonStop(lost), NonStop(arrived), |arrived|);
  }

  lemma {:induction false} LockingKeepsCommands(v: Vehicle, points: seq<word>)
    ensures var u := Locked(v, points);
            u == v.(wp := u.wp, asked := u.asked, refused := u.refused)
    decreases |points|
  {
    if points != [] {
      LockingKeepsCommands(v, points[..|points| - 1]);
    }
  }

  lemma MovingKeepsCommands(v: Vehicle, o: Order, answer: Answer)
    ensures var u := Moved(v, o, answer);
            u == v.(wp := u.wp, last := u.last, asked := u.asked, refused := u.refused, moves := u.moves,
                    signs := u.signs)
  {
    LockingKeepsCommands(v, WayPoints(o));
  }

  /** Where a command goes on its arrival. */
  datatype Place = AtOnce | InFront | AtEnd | Nowhere

  function PlaceOf(v: Vehicle, o: Order, answer: Answer): Place {
    var r := if o.action == STOP || v.cmds == [] then Issuing(v, o, answer) else BUSY;
    if r == OK then AtOnce
    else if r == BUSY && v.free > 0 then (if o.action == STOP then InFront else AtEnd)
    else Nowhere
  }

  lemma AcceptedPlaces(v: Vehicle, action: word, len: nat, params: memory, answer: Answer, block: memory)
    requires v.free + |v.cmds| <= MAX_COMMANDS
    ensures var o := Order(|v.arrived|, action, action, len, params);
            var u, q, place := Accepted(v, action, len, params, answer, block), Stored(o, block), PlaceOf(v, o, answer);
            && u.arrived == v.arrived + [o] && u.free + |u.cmds| == v.free + |v.cmds|
            && u.issued == (if place == AtOnce then v.issued + [o] else v.issued)
            && u.lost == (if place == Nowhere then v.lost + [o] else v.lost)
            && u.cmds == (if place == AtEnd then v.cmds + [q] else if place == InFront then [q] + v.cmds else v.cmds)
  {
    var o := Order(|v.arrived|, action, action, len, params);
    MovingKeepsCommands(v.(arrived := v.arrived + [o]), o, answer);
  }

  lemma NewcomerCame(arrived: seq<Order>, o: Order, s: seq<Order>, q: Order)
    requires Numbered(arrived) && o.id == |arrived| && IsOf(q, o)
    ensures Numbered(arrived + [o])
    ensures CameFrom(arrived, s) ==>
              CameFrom(arrived + [o], s) && CameFrom(arrived + [o], s + [q]) && CameFrom(arrived + [o], [q] + s)
  {
  }

  lemma LeaverCame(arrived: seq<Order>, s: seq<Order>, t: seq<Order>)
    requires t != [] && CameFrom(arrived, s) && CameFrom(arrived, t)
    ensures CameFrom(arrived, s + [t[0]]) && CameFrom(arrived, t[1..])
  {
  }

  lemma CommandKeepsOrder(v: Vehicle, action: word, len: nat, params: memory, answer: Answer, block: memory)
    requires OrderInv(v)
    ensures OrderInv(Accepted(v, action, len, params, answer, block))
  {
    var o := Order(|v.arrived|, action, action, len, params);
    var q, place := Stored(o, block), PlaceOf(v, o, answer);
    AcceptedPlaces(v, action, len, params, answer, block);
    ArrivesPlaced(v.arrived, v.issued, v.cmds, v.lost, o, q);
    NewcomerCame(v.arrived, o, v.issued, o);
    NewcomerCame(v.arrived, o, v.cmds, q);
    NewcomerCame(v.arrived, o, v.lost, o);
    match place
    case AtOnce =>
      if action == STOP {
        StopIssuedInOrder(v.arrived, v.issued, v.cmds, v.lost, o);
      } else {
        IssuedInOrder(v.arrived, v.issued, v.lost, o);
      }
    case InFront => WaitsFirstInOrder(v.arrived, v.issued, v.cmds, v.lost, o, q);
    case AtEnd => WaitsLastInOrder(v.arrived, v.issued, v.cmds, v.lost, o, q);
    case Nowhere => LostInOrder(v.arrived, v.issued, v.cmds, v.lost, o);
  }

  lemma IssuingNextKeepsOrder(v: Vehicle, answer: Answer)
    requires OrderInv(v) && v.cmds != []
    ensures OrderInv(IssuedNext(v, answer))
  {
    NextPlaces(v, answer);
    IssuingNextKeepsOrigins(v, IssuedNext(v, answer));
    HeadMovedInOrder(v, IssuedNext(v, answer));
    HeadMovedPlaced(v, IssuedNext(v, answer));
  }

  lemma HeadMovedInOrder(v: Vehicle, u: Vehicle)
    requires HeadMoved(v, u) && InOrder(v.arrived, v.issued, v.cmds, v.lost)
    ensures InOrder(u.arrived, u.issued, u.cmds, u.lost)
  {
    assert v.cmds == [v.cmds[0]] + v.cmds[1..];
    LeavesInOrder(v.arrived, v.issued, v.cmds[1..], v.lost, v.cmds[0]);
  }

  lemma HeadMovedPlaced(v: Vehicle, u: Vehicle)
    requires HeadMoved(v, u) && Placed(v.arrived, v.issued, v.cmds, v.lost)
    ensures Placed(u.arrived, u.issued, u.cmds, u.lost)
  {
    assert v.cmds == [v.cmds[0]] + v.cmds[1..];
    LeavesPlaced(v.arrived, v.issued, v.cmds[1..], v.lost, v.cmds[0]);
  }

  /** The head of the queue has moved to the issued or to the lost commands. */
  ghost predicate HeadMoved(v: Vehicle, u: Vehicle) {
    && v.cmds != [] && u.arrived == v.arrived && u.cmds == v.cmds[1..] && u.free == v.free + 1
    && ((u.issued == v.issued + [v.cmds[0]] && u.lost == v.lost)
        || (u.issued == v.issued && u.lost == v.lost + [v.cmds[0]]))
  }

  lemma NextPlaces(v: Vehicle, answer: Answer)
    requires v.cmds != []
    ensures HeadMoved(v, IssuedNext(v, answer))
  {
    MovingKeepsCommands(v.(cmds := v.cmds[1..]), v.cmds[0], answer);
  }

  lemma IssuingNextKeepsOrigins(v: Vehicle, u: Vehicle)
    requires Origins(v) && HeadMoved(v, u)
    ensures Origins(u)
  {
    LeaverCame(v.arrived, v.issued, v.cmds);
    LeaverCame(v.arrived, v.lost, v.cmds);
  }

  lemma StepKeepsOrder(v: Vehicle, step: Step)
    requires OrderInv(v)
    ensures OrderInv(Apply(v, step))
  {
    match step
    case Command(action, len, params, answer, block) =>
      CommandKeepsOrder(v, action, len, params, answer, block);
    case Motion(evt, answer) =>
      MotionKeepsOrder(v, evt, answer);
    case Tag(tag) => TagKeepsOrder(v, tag);
  }

  lemma MotionKeepsOrder(v: Vehicle, evt: Event, answer: Answer)
    requires OrderInv(v)
    ensures OrderInv(Reacted(v, evt, answer))
  {
    if v.cmds != [] {
      IssuingNextKeepsOrder(v, answer);
      EitherIssuedOrSame(v, evt, answer);
    }
    SignsDoNotMatter(Resumed(v, evt, answer), Reacted(v, evt, answer));
  }

  lemma SignsDoNotMatter(v: Vehicle, u: Vehicle)
    requires u == v.(signs := u.signs)
    ensures OrderInv(v) ==> OrderInv(u)
  {
  }

  lemma TagKeepsOrder(v: Vehicle, tag: word)
    requires OrderInv(v)
    ensures OrderInv(Checked(v, tag))
  {
    var u := Checked(v, tag);
    assert u == v.(wp := u.wp, released := u.released);
  }

  lemma EitherIssuedOrSame(v: Vehicle, evt: Event, answer: Answer)
    requires v.cmds != [] && |v.cmds| <= MAX_COMMANDS
    ensures Resumed(v, evt, answer) == v || Resumed(v, evt, answer) == IssuedNext(v, answer)
  {
    assert [v.cmds[0]] + v.cmds[1..] == v.cmds;
  }

  lemma InitialOrder()
    ensures OrderInv(Parked())
  {
  }

  lemma {:induction false} RunKeepsOrder(steps: seq<Step>, n: nat)
    requires n <= |steps|
    ensures OrderInv(Run(steps, n))
  {
    InitialOrder();
    forall v: Vehicle, step: Step | OrderInv(v) ensures OrderInv(Apply(v, step)) {
      StepKeepsOrder(v, step);
    }
    RunInduction(v => OrderInv(v), steps, n);
  }

  /** Commands other than STOP are issued, and wait, in the order of their arrival; they are all the
      commands that arrived exactly when none was lost. */
  lemma {:induction false} CommandOrder(steps: seq<Step>)
    ensures var v := Run(steps, |steps|);
            && Increasing(NonStop(v.issued + v.cmds))
            && (NonStop(v.issued + v.cmds) == NonStop(v.arrived) <==> NonStop(v.lost) == [])
  {
    RunKeepsOrder(steps, |steps|);
    var v := Run(steps, |steps|);
    NonStopJoins(v.issued, v.cmds);
  }

  /** Every command that arrived, STOP included, was issued, waits or was lost, and only one of these: numbers
      are those of arrival, and each occurs once. It is still the command that arrived, or what the queue
      could store of it. And the pool has a block for every place in the queue. */
  lemma {:induction false} NoCommandVanishes(steps: seq<Step>)
    ensures var v := Run(steps, |steps|);
            && multiset(Ids(v.issued)) + multiset(Ids(v.cmds)) + multiset(Ids(v.lost)) == multiset(Ids(v.arrived))
            && (forall k :: 0 <= k < |v.arrived| ==> v.arrived[k].id == k)
            && CameFrom(v.arrived, v.issued + v.cmds + v.lost)
            && v.free + |v.cmds| == MAX_COMMANDS
  {
    RunKeepsOrder(steps, |steps|);
  }

  /** A new command is issued if it is taken on at once; it waits, STOP before the others, if it has to and there
      is a block; in all other cases it is lost. */
  lemma ArrivesExactly(v: Vehicle, action: word, len: nat, params: memory, answer: Answer, block: memory)
    requires OrderInv(v)
    ensures var u := Accepted(v, action, len, params, answer, block);
            var o := Order(|v.arrived|, action, action, len, params);
            var q, r := Stored(o, block), if action == 8 || v.cmds == [] then Issuing(v, o, answer) else BUSY;
            var waits := r == BUSY && v.free > 0;
            && u.arrived == v.arrived + [o]
            && u.issued == (if r == OK then v.issued + [o] else v.issued)
            && u.cmds == (if !waits then v.cmds else if action == 8 then [q] + v.cmds else v.cmds + [q])
            && u.lost == (if r == OK || waits then v.lost else v.lost + [o])
            && u.free == (if waits then v.free - 1 else v.free)
  {
    AcceptedPlaces(v, action, len, params, answer, block);
  }

  /** A command is lost on its arrival exactly when it is refused for another reason than being busy, or
      has to wait and the pool is empty. */
  lemma LostOnArrival(v: Vehicle, action: word, len: nat, params: memory, answer: Answer, block: memory)
    requires OrderInv(v)
    ensures var o := Order(|v.arrived|, action, action, len, params);
            var r := if action == STOP || v.cmds == [] then Issuing(v, o, answer) else BUSY;
            var loses := r == INVALID || r == FAILED || (r == BUSY && v.free == 0);
            Accepted(v, action, len, params, answer, block).lost == if loses then v.lost + [o] else v.lost
  {
    AcceptedPlaces(v, action, len, params, answer, block);
  }

  /** A command that has waited is lost exactly when it is issued and refused, even for being busy. */
  lemma LostAfterWaiting(v: Vehicle, evt: Event, answer: Answer)
    requires OrderInv(v) && v.cmds != []
    ensures var o := v.cmds[0];
            var tried := evt == ACTION_OVER || (evt == POINT_ARRIVAL && (o.action == STOP || o.action == GOSTRAIGHT));
            Reacted(v, evt, answer).lost == if tried && Issuing(v, o, answer) != OK then v.lost + [o] else v.lost
  {
    MovingKeepsCommands(v.(cmds := v.cmds[1..]), v.cmds[0], answer);
  }
}
