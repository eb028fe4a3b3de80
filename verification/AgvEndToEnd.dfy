/** From the controller to the motion controller: the protocol hands the commands that it dispatches to the
    vehicle's pipeline, one after the other, while motion events and tags come in between.
  */
module AgvEndToEnd {
  import opened LibMem
  import opened AgvcpFrame
  import opened AgvCommands
  import opened AgvCommandLaws
  import Agvcp
  import P = AgvcpProtocol
  import D = AgvcpDelivery

  // ------------------------------------------------ what a dispatched block asks for

  const CONNECTION_LOST: word := 0x11
  const CONNECTION_RECOVERY: word := 0x12

  /** The action, the parameters' length as sent, and the parameters. */
  datatype Call = Call(action: word, len: nat, params: seq<byte>)

  function CallOf(b: Frame): Call {
    Call(Word(b.data, 0), Word(b.data, 4), if |b.data| >= 8 then b.data[8..] else [])
  }

  /** Changes of the connection are no commands to the vehicle. */
  predicate IsNotice(c: Call) { c.action == CONNECTION_LOST || c.action == CONNECTION_RECOVERY }

  function CallsOf(b: Frame): seq<Call> { if IsNotice(CallOf(b)) then [] else [CallOf(b)] }

  /** The commands to the vehicle in a list of blocks. */
  function Calls(blocks: seq<Frame>): seq<Call> {
    if blocks == [] then [] else Calls(blocks[..|blocks| - 1]) + CallsOf(blocks[|blocks| - 1])
  }

  lemma {:induction false} CallsGrow(a: seq<Frame>, b: seq<Frame>)
    requires a <= b
    ensures Calls(a) <= Calls(b)
    decreases |b|
  {
    if a == b {
    } else {
      CallsGrow(a, b[..|b| - 1]);
    }
  }

  lemma {:induction false} CallsAppend(blocks: seq<Frame>, b: Frame)
    ensures Calls(blocks + [b]) == Calls(blocks) + CallsOf(b)
  {
    assert (blocks + [b])[..|blocks|] == blocks;
  }

  /** The lengths are those of the parameters. */
  ghost predicate TrueLengths(calls: seq<Call>) {
    forall k :: 0 <= k < |calls| ==> calls[k].len == |calls[k].params|
  }

  predicate IsTrue(b: Frame) { CallOf(b).len == |CallOf(b).params| }

  lemma CallOfCommand(m: Frame)
    requires P.WellFormed(m) && m.mtype == Agvcp.ACTION
    ensures IsTrue(Agvcp.Body(m))
  {
    var b := Agvcp.Body(m);
    WordIsBigEndian(b.data, 4);
    assert b.data[4..8] == m.data[8..12];
  }

  lemma {:induction false} CommandsAreTrue(env: P.Env, n: nat)
    requires P.Honest(env) && n <= |env.msgs|
    ensures forall b :: b in P.Actions(env, n) ==> IsTrue(b)
  {
    if n > 0 {
      CommandsAreTrue(env, n - 1);
      if env.msgs[n - 1].mtype == Agvcp.ACTION {
        CallOfCommand(env.msgs[n - 1]);
      }
    }
  }

  lemma {:induction false} LengthsAreTrue(blocks: seq<Frame>)
    requires forall b :: b in blocks ==> IsTrue(b)
    ensures TrueLengths(Calls(blocks))
    decreases |blocks|
  {
    if blocks != [] {
      LengthsAreTrue(blocks[..|blocks| - 1]);
      assert IsTrue(blocks[|blocks| - 1]);
    }
  }

  /** The command that a message asks for: its action and its length are the second and the third word of the
      payload, and all the rest is parameters. */
  lemma CallOfMessage(m: Frame)
    requires |m.data| >= 12
    ensures var c := CallOf(Agvcp.Body(m));
            c.action == BigValue(m.data[4..8]) && c.len == BigValue(m.data[8..12]) && c.params == m.data[12..]
  {
    var b := Agvcp.Body(m);
    WordIsBigEndian(b.data, 0);
    WordIsBigEndian(b.data, 4);
    assert b.data[0..4] == m.data[4..8] && b.data[4..8] == m.data[8..12];
  }

  /** Just the actions 17 and 18 are no commands. */
  lemma {:induction false} CallsAreCommands(blocks: seq<Frame>, c: Call)
    ensures c in Calls(blocks) <==> c.action != 17 && c.action != 18 && exists b :: b in blocks && c == CallOf(b)
    decreases |blocks|
  {
    if blocks != [] {
      var init, last := blocks[..|blocks| - 1], blocks[|blocks| - 1];
      CallsAreCommands(init, c);
      assert blocks == init + [last];
    }
  }

  // ------------------------------------------------ both halves together

  datatype Plant = Plant(link: P.World, vehicle: Vehicle)

  /** A step of the protocol, or an event of the vehicle. beyond is the memory behind the dispatched block,
      answer the motion controller's, and hold what the vehicle's own block held before. */
  datatype Event =
    | Link(step: P.Step, beyond: memory, answer: Answer, hold: memory)
    | Motion(evt: AgvCommands.Event, answer: Answer)
    | Tag(tag: word)

  /** `agvcp_event_process`. */
  function Called(v: Vehicle, c: Call, beyond: memory, answer: Answer, hold: memory): Vehicle {
    if IsNotice(c) then v else Accepted(v, c.action, c.len, c.params + beyond, answer, hold)
  }

  predicate Dispatches(w: P.World, step: P.Step) { step.Dispatch? && w.task.Confirmed? }

  function NextVehicle(w: P.World, v: Vehicle, e: Event): Vehicle {
    match e
    case Link(step, beyond, answer, hold) =>
      if Dispatches(w, step) then Called(v, CallOf(w.task.block), beyond, answer, hold) else v
    case Motion(evt, answer) => Reacted(v, evt, answer)
    case Tag(tag) => Checked(v, tag)
  }

  function NextLink(env: P.Env, w: P.World, e: Event): P.World { if e.Link? then P.Apply(env, w, e.step) else w }

  function Next(env: P.Env, s: Plant, e: Event): Plant {
    Plant(NextLink(env, s.link, e), NextVehicle(s.link, s.vehicle, e))
  }

  function RunPlant(env: P.Env, events: seq<Event>, n: nat): Plant
    requires n <= |events|
  {
    if n == 0 then Plant(P.Initial(), Parked()) else Next(env, RunPlant(env, events, n - 1), events[n - 1])
  }

  // ------------------------------------------------ what every step keeps

  /** A command as it arrives. */
  ghost predicate IsCall(a: Order, c: Call) {
    a.sent == a.action == c.action && a.len == c.len && c.params <= a.params
  }

  /** The vehicle has got the dispatched commands. */
  ghost predicate Served(arrived: seq<Order>, calls: seq<Call>) {
    |arrived| == |calls| && forall k :: 0 <= k < |arrived| ==> IsCall(arrived[k], calls[k])
  }

  ghost predicate VehicleInv(v: Vehicle, dispatched: seq<Frame>) {
    OrderInv(v) && Served(v.arrived, Calls(dispatched))
  }

  /** The blocks dispatched after the event. */
  function NextDispatched(w: P.World, e: Event): seq<Frame> {
    if e.Link? && Dispatches(w, e.step) then w.dispatched + [w.task.block] else w.dispatched
  }

  lemma OnlyDispatchDispatches(env: P.Env, w: P.World, e: Event)
    ensures NextLink(env, w, e).dispatched == NextDispatched(w, e)
  {
  }

  lemma CommandArrives(v: Vehicle, c: Call, beyond: memory, answer: Answer, hold: memory)
    requires OrderInv(v) && !IsNotice(c)
    ensures var o := Order(|v.arrived|, c.action, c.action, c.len, c.params + beyond);
            Called(v, c, beyond, answer, hold).arrived == v.arrived + [o]
  {
    AcceptedPlaces(v, c.action, c.len, c.params + beyond, answer, hold);
  }

  lemma OneMoreServed(arrived: seq<Order>, calls: seq<Call>, o: Order, c: Call)
    requires Served(arrived, calls) && IsCall(o, c)
    ensures Served(arrived + [o], calls + [c])
  {
  }

  lemma CallIsServed(v: Vehicle, b: Frame, beyond: memory, answer: Answer, hold: memory, calls: seq<Call>)
    requires OrderInv(v) && Served(v.arrived, calls)
    ensures Served(Called(v, CallOf(b), beyond, answer, hold).arrived, calls + CallsOf(b))
  {
    var c := CallOf(b);
    if IsNotice(c) {
      assert calls + [] == calls;
    } else {
      CommandArrives(v, c, beyond, answer, hold);
      OneMoreServed(v.arrived, calls, Order(|v.arrived|, c.action, c.action, c.len, c.params + beyond), c);
    }
  }

  lemma CallKeepsOrder(v: Vehicle, c: Call, beyond: memory, answer: Answer, hold: memory)
    requires OrderInv(v)
    ensures OrderInv(Called(v, c, beyond, answer, hold))
  {
    if !IsNotice(c) {
      CommandKeepsOrder(v, c.action, c.len, c.params + beyond, answer, hold);
    }
  }

  lemma EventKeepsLink(env: P.Env, s: Plant, e: Event)
    requires P.Honest(env) && D.Inv(env, s.link)
    ensures D.Inv(env, Next(env, s, e).link)
  {
    if e.Link? {
      D.StepKeepsInv(env, s.link, e.step);
    }
  }

  lemma EventKeepsVehicle(w: P.World, v: Vehicle, e: Event)
    requires VehicleInv(v, w.dispatched)
    ensures VehicleInv(NextVehicle(w, v, e), NextDispatched(w, e))
  {
    match e
    case Link(step, beyond, answer, hold) =>
      if Dispatches(w, step) {
        CallsAppend(w.dispatched, w.task.block);
        CallIsServed(v, w.task.block, beyond, answer, hold, Calls(w.dispatched));
        CallKeepsOrder(v, CallOf(w.task.block), beyond, answer, hold);
      }
    case Motion(evt, answer) => MotionIsServed(v, evt, answer, w.dispatched);
    case Tag(tag) => TagIsServed(v, tag, w.dispatched);
  }

  lemma MotionIsServed(v: Vehicle, evt: AgvCommands.Event, answer: Answer, blocks: seq<Frame>)
    requires VehicleInv(v, blocks)
    ensures VehicleInv(Reacted(v, evt, answer), blocks)
  {
    MotionKeepsOrder(v, evt, answer);
    MotionBringsNoCommand(v, evt, answer);
  }

  lemma MotionBringsNoCommand(v: Vehicle, evt: AgvCommands.Event, answer: Answer)
    ensures Reacted(v, evt, answer).arrived == v.arrived
  {
    if v.cmds != [] {
      NextPlaces(v, answer);
    }
  }

  lemma TagIsServed(v: Vehicle, tag: word, blocks: seq<Frame>)
    requires VehicleInv(v, blocks)
    ensures VehicleInv(Checked(v, tag), blocks)
  {
    TagKeepsOrder(v, tag);
    TagBringsNoCommand(v, tag);
  }

  lemma TagBringsNoCommand(v: Vehicle, tag: word)
    ensures Checked(v, tag).arrived == v.arrived
  {
  }

  lemma {:induction false} PlantInduction(p: Plant -> bool, env: P.Env, events: seq<Event>, n: nat)
    requires n <= |events| && p(Plant(P.Initial(), Parked()))
    requires forall s: Plant, e: Event :: p(s) ==> p(Next(env, s, e))
    ensures p(RunPlant(env, events, n))
  {
    if n > 0 {
      PlantInduction(p, env, events, n - 1);
      assert p(Next(env, RunPlant(env, events, n - 1), events[n - 1]));
    }
  }

  ghost predicate VehicleFollows(s: Plant) { VehicleInv(s.vehicle, s.link.dispatched) }

  lemma NextFollows(env: P.Env, s: Plant, e: Event)
    requires VehicleFollows(s)
    ensures VehicleFollows(Next(env, s, e))
  {
    EventKeepsVehicle(s.link, s.vehicle, e);
    OnlyDispatchDispatches(env, s.link, e);
  }

  lemma {:induction false} RunKeepsLink(env: P.Env, events: seq<Event>, n: nat)
    requires P.Honest(env) && n <= |events|
    ensures D.Inv(env, RunPlant(env, events, n).link)
  {
    D.InitialInv(env);
    forall s: Plant, e: Event | D.Inv(env, s.link) ensures D.Inv(env, Next(env, s, e).link) {
      EventKeepsLink(env, s, e);
    }
    PlantInduction((s: Plant) => D.Inv(env, s.link), env, events, n);
  }

  lemma {:induction false} RunKeepsVehicle(env: P.Env, events: seq<Event>, n: nat)
    requires n <= |events|
    ensures VehicleFollows(RunPlant(env, events, n))
  {
    InitialOrder();
    forall s: Plant, e: Event | VehicleFollows(s) ensures VehicleFollows(Next(env, s, e)) {
      NextFollows(env, s, e);
    }
    PlantInduction((s: Plant) => VehicleFollows(s), env, events, n);
  }

  /** What was dispatched is the beginning of what the controller sent. */
  lemma {:induction false} ServedAreSent(env: P.Env, w: P.World)
    requires P.Honest(env) && D.Inv(env, w)
    ensures Calls(w.dispatched) <= Calls(P.Actions(env, |env.msgs|))
  {
    D.ActionsGrow(env, w.accepted, |env.msgs|);
    D.FirstOfThree(w.dispatched, P.InHand(w.task), w.rx.que, P.Actions(env, |env.msgs|));
    CallsGrow(w.dispatched, P.Actions(env, |env.msgs|));
  }

  /** What both say about the commands in the pipeline. */
  lemma {:induction false} AfterRun(env: P.Env, events: seq<Event>)
    requires P.Honest(env)
    ensures var s := RunPlant(env, events, |events|);
            VehicleInv(s.vehicle, s.link.dispatched) && Calls(s.link.dispatched) <= Calls(P.Actions(env, |env.msgs|))
  {
    RunKeepsLink(env, events, |events|);
    RunKeepsVehicle(env, events, |events|);
    ServedAreSent(env, RunPlant(env, events, |events|).link);
  }

  // ------------------------------------------------ the results

  /** The command is the one that the controller sent: its action, and unless the queue cut them down to
      an octet each, the action, the length and the parameters that are given to the motion controller. */
  ghost predicate CarriesOut(o: Order, c: Call) {
    && o.sent == c.action && (c.action <= 0xFF ==> o.action == c.action)
    && (c.len <= 0xFF ==> o.len == c.len && c.params <= o.params)
  }

  lemma StoredCarriesOut(o: Order, a: Order, c: Call)
    requires IsOf(o, a) && IsCall(a, c) && c.len == |c.params|
    ensures CarriesOut(o, c)
  {
    if o != a {
      var block :| o == Stored(a, block);
      StoredIntact(a, block);
      assert a.params[..c.len] == c.params;
    }
  }

  lemma AllCarriedOut(arrived: seq<Order>, there: seq<Order>, calls: seq<Call>, all: seq<Call>)
    requires CameFrom(arrived, there) && Served(arrived, calls) && calls <= all && TrueLengths(all)
    ensures forall o :: o in there ==> o.id < |all| && CarriesOut(o, all[o.id])
  {
    forall o | o in there ensures o.id < |all| && CarriesOut(o, all[o.id]) {
      var k :| 0 <= k < |there| && there[k] == o;
      StoredCarriesOut(o, arrived[o.id], calls[o.id]);
    }
  }

  lemma {:induction false} VehicleResults(v: Vehicle, blocks: seq<Frame>, all: seq<Call>)
    requires VehicleInv(v, blocks) && Calls(blocks) <= all && TrueLengths(all)
    ensures forall o :: o in v.issued + v.cmds + v.lost ==> o.id < |all| && CarriesOut(o, all[o.id])
    ensures Increasing(NonStop(v.issued + v.cmds))
    ensures Placed(v.arrived, v.issued, v.cmds, v.lost) && |v.arrived| == |Calls(blocks)|
    ensures Numbered(v.arrived)
  {
    NonStopJoins(v.issued, v.cmds);
    AllCarriedOut(v.arrived, v.issued + v.cmds + v.lost, Calls(blocks), all);
  }

  /** Over every run of both halves: each command that was issued to the motion controller, waits or was
      lost is one that the controller sent; its number is its position among the controller's commands, so
      that, STOP aside, commands are issued and wait in the order in which the controller sent them; and
      each dispatched command is in exactly one of the three places. */
  lemma {:induction false} CommandsEndToEnd(env: P.Env, events: seq<Event>)
    requires P.Honest(env)
    ensures var s, all := RunPlant(env, events, |events|), Calls(P.Actions(env, |env.msgs|));
            var v := s.vehicle;
            && (forall o :: o in v.issued + v.cmds + v.lost ==> o.id < |all| && CarriesOut(o, all[o.id]))
            && Increasing(NonStop(v.issued + v.cmds))
            && Placed(v.arrived, v.issued, v.cmds, v.lost) && |v.arrived| == |Calls(s.link.dispatched)|
            && Numbered(v.arrived)
  {
    AfterRun(env, events);
    var s, all := RunPlant(env, events, |events|), Calls(P.Actions(env, |env.msgs|));
    CommandsAreTrue(env, |env.msgs|);
    LengthsAreTrue(P.Actions(env, |env.msgs|));
    VehicleResults(s.vehicle, s.link.dispatched, all);
  }

  /** Positions of the commands other than STOP. */
  function Positions(calls: seq<Call>): seq<nat> {
    if calls == [] then []
    else Positions(calls[..|calls| - 1]) + if calls[|calls| - 1].action == STOP then [] else [|calls| - 1 as nat]
  }

  lemma {:induction false} PositionsGrow(a: seq<Call>, b: seq<Call>)
    requires a <= b
    ensures Positions(a) <= Positions(b)
    decreases |b|
  {
    if a == b {
    } else {
      PositionsGrow(a, b[..|b| - 1]);
    }
  }

  lemma {:induction false} ArrivedPositions(arrived: seq<Order>, calls: seq<Call>)
    requires Numbered(arrived) && Served(arrived, calls)
    ensures NonStop(arrived) == Positions(calls)
    decreases |calls|
  {
    if calls != [] {
      ArrivedPositions(arrived[..|arrived| - 1], calls[..|calls| - 1]);
      assert IsCall(arrived[|arrived| - 1], calls[|calls| - 1]);
    }
  }

  /** The commands issued or waiting are, STOP aside, all that the controller has to send exactly when all
      of them have been dispatched and none was lost. */
  lemma {:induction false} AllIssuedExactly(env: P.Env, events: seq<Event>)
    requires P.Honest(env)
    ensures var s, all := RunPlant(env, events, |events|), Calls(P.Actions(env, |env.msgs|));
            var v := s.vehicle;
            NonStop(v.issued + v.cmds) == Positions(all) <==>
              NonStop(v.lost) == [] && Positions(Calls(s.link.dispatched)) == Positions(all)
  {
    AfterRun(env, events);
    var s, all := RunPlant(env, events, |events|), Calls(P.Actions(env, |env.msgs|));
    var v := s.vehicle;
    PositionsGrow(Calls(s.link.dispatched), all);
    ArrivedPositions(v.arrived, Calls(s.link.dispatched));
    NonStopJoins(v.issued, v.cmds);
    CompleteExactly(NonStop(v.issued) + NonStop(v.cmds), NonStop(v.lost), NonStop(v.arrived), Positions(all),
                    |v.arrived|);
  }

  lemma CompleteExactly(there: seq<nat>, lost: seq<nat>, arrived: seq<nat>, all: seq<nat>, n: nat)
    requires Ordered(there, lost, arrived, n) && arrived <= all
    ensures there == all <==> lost == [] && arrived == all
  {
  }
}
