/** Way points and the chaining of moves, over every run of the command pipeline's handlers. */
module AgvPaths {
  import opened OsKernel
  import opened AgvcpFrame
  import opened AgvCommands
  import opened AgvCommandLaws

  // ------------------------------------------------ way points

  /** The points of the moves among the issued commands. */
  function Path(issued: seq<Order>): seq<word> {
    if issued == [] then []
    else
      var o := issued[|issued| - 1];
      Path(issued[..|issued| - 1]) + if IsMove(o.action) then WayPoints(o) else []
  }

  lemma {:induction false} PathAppend(issued: seq<Order>, o: Order)
    ensures Path(issued + [o]) == Path(issued) + if IsMove(o.action) then WayPoints(o) else []
  {
    assert (issued + [o])[..|issued|] == issued;
  }

  function Passed(released: seq<Release>): seq<word> {
    seq(|released|, k requires 0 <= k < |released| => released[k].point)
  }

  /** Every point ever asked for was released, is still locked, or was refused by a full queue. */
  ghost predicate PointsOk(v: Vehicle) {
    && |v.wp| <= MAX_WAYPOINTS
    && |v.asked| == |v.released| + |v.wp| + |v.refused|
    && (v.refused == [] ==> v.asked == Passed(v.released) + v.wp)
    && (forall k :: 0 <= k < |v.wp| ==> v.wp[k] != 0)
    && (forall k :: 0 <= k < |v.released| ==>
          v.released[k].point == v.released[k].tag || v.released[k].point == ANYWHERE)
  }

  lemma LockingOneKeepsPoints(v: Vehicle, p: word)
    requires PointsOk(v) && p != 0
    ensures PointsOk(LockedOne(v, p)) && LockedOne(v, p).asked == v.asked + [p]
  {
    assert Passed(v.released) + (v.wp + [p]) == Passed(v.released) + v.wp + [p];
  }

  lemma {:induction false} LockingKeepsPoints(v: Vehicle, points: seq<word>)
    requires PointsOk(v) && forall k :: 0 <= k < |points| ==> points[k] != 0
    ensures PointsOk(Locked(v, points)) && Locked(v, points).asked == v.asked + points
    decreases |points|
  {
    if points == [] {
      assert v.asked + points == v.asked;
    } else {
      var p, rest := points[|points| - 1], points[..|points| - 1];
      LockingKeepsPoints(v, rest);
      LockingOneKeepsPoints(Locked(v, rest), p);
      assert v.asked + rest + [p] == v.asked + points;
    }
  }

  lemma {:induction false} PointsAreNotZero(params: memory, n: nat)
    ensures forall k :: 0 <= k < n ==> Points(params, n)[k] != 0
  {
    if n > 0 {
      PointsAreNotZero(params, n - 1);
    }
  }

  ghost predicate PathInv(v: Vehicle) { PointsOk(v) && v.asked == Path(v.issued) }

  /** The path looks at the way points and the issued commands only. */
  lemma SamePath(v: Vehicle, u: Vehicle)
    requires PathInv(v)
    requires u == v.(arrived := u.arrived, cmds := u.cmds, free := u.free, lost := u.lost, signs := u.signs)
    ensures PathInv(u)
  {
  }

  /** Only a move that is issued touches points, the chain and their histories. */
  lemma {:induction false} OnlyMovesDrive(v: Vehicle, o: Order, answer: Answer)
    ensures var u := Moved(v, o, answer);
            if Issuing(v, o, answer) == OK && IsMove(o.action)
            then u == Locked(v, WayPoints(o)).(last := End(o), moves := v.moves + [Move(Start(o), End(o))])
            else u == v.(signs := u.signs)
  {
  }

  lemma {:induction false} DrivingKeepsPoints(v: Vehicle, o: Order, u: Vehicle)
    requires PathInv(v) && u == Locked(v, WayPoints(o)).(last := u.last, moves := u.moves)
    ensures PointsOk(u) && u.asked == Path(v.issued) + WayPoints(o) && u.issued == v.issued
  {
    PointsAreNotZero(o.params, PointCount(o));
    LockingKeepsPoints(v, WayPoints(o));
    LockingKeepsCommands(v, WayPoints(o));
  }

  lemma MovingKeepsPoints(v: Vehicle, o: Order, answer: Answer)
    requires PathInv(v)
    ensures var r := Issuing(v, o, answer); PathInv(Settled(Moved(v, o, answer), o, r))
    ensures Issuing(v, o, answer) != OK ==> PathInv(Moved(v, o, answer))
  {
    var u := Moved(v, o, answer);
    OnlyMovesDrive(v, o, answer);
    PathAppend(v.issued, o);
    if Issuing(v, o, answer) == OK && IsMove(o.action) {
      DrivingKeepsPoints(v, o, u);
    } else {
      SamePath(v, u);
      assert Path(v.issued) + [] == Path(v.issued);
    }
  }

  // ------------------------------------------------ releasing

  ghost predicate Fits(p: word, tag: word) { p == tag || p == ANYWHERE }

  /** A locked point is released exactly when it is the tag or the wildcard; the answer says so. */
  lemma MatchReleases(v: Vehicle, tag: word)
    requires 0 < |v.wp| <= MAX_WAYPOINTS && v.wp[0] != 0
    ensures Checking(v, tag) == Match <==> v.wp[0] == tag || v.wp[0] == 0xFFFF_FFFF
    ensures Checking(v, tag) == Match <==>
              Checked(v, tag) == v.(wp := v.wp[1..], released := v.released + [Release(v.wp[0], tag)])
    ensures Checking(v, tag) != Match ==> Checking(v, tag) == Mismatch && Checked(v, tag) == v
  {
    assert [v.wp[0]] + v.wp[1..] == v.wp;
    assert v.released + [Release(v.wp[0], tag)] != v.released;
  }

  /** The tags are seen one after the other. */
  function TagsChecked(v: Vehicle, tags: seq<word>): Vehicle {
    if tags == [] then v else Checked(TagsChecked(v, tags[..|tags| - 1]), tags[|tags| - 1])
  }

  /** Points and tags side by side. */
  function Pairs(points: seq<word>, tags: seq<word>): seq<Release>
    requires |points| == |tags|
  {
    if tags == [] then []
    else
      var n := |tags| - 1;
      Pairs(points[..n], tags[..n]) + [Release(points[n], tags[n])]
  }

  ghost predicate AllFit(points: seq<word>, tags: seq<word>)
    requires |tags| <= |points|
  {
    forall k :: 0 <= k < |tags| ==> Fits(points[k], tags[k])
  }

  /** Each tag releases at most one point. */
  lemma {:induction false} TagsReleaseFew(v: Vehicle, tags: seq<word>)
    requires |v.wp| <= MAX_WAYPOINTS && forall k :: 0 <= k < |v.wp| ==> v.wp[k] != 0
    ensures var u := TagsChecked(v, tags);
            |v.wp| - |tags| <= |u.wp| <= |v.wp| && u.wp == v.wp[|v.wp| - |u.wp|..]
    decreases |tags|
  {
    if tags != [] {
      var init, tag := tags[..|tags| - 1], tags[|tags| - 1];
      TagsReleaseFew(v, init);
      var u := TagsChecked(v, init);
      if u.wp != [] {
        assert u.wp[0] == v.wp[|v.wp| - |u.wp|];
        MatchReleases(u, tag);
      }
    }
  }

  /** Tags release a point each exactly when every one is its point or the point is the wildcard. */
  lemma {:induction false} TagsReleaseEach(v: Vehicle, tags: seq<word>)
    requires |tags| <= |v.wp| <= MAX_WAYPOINTS && forall k :: 0 <= k < |v.wp| ==> v.wp[k] != 0
    ensures var u := TagsChecked(v, tags);
            && (AllFit(v.wp, tags) <==> |u.wp| == |v.wp| - |tags|)
            && (AllFit(v.wp, tags) ==> u.released == v.released + Pairs(v.wp[..|tags|], tags))
    decreases |tags|
  {
    if tags == [] {
      assert v.released + [] == v.released;
    } else {
      var n, tag := |tags| - 1, tags[|tags| - 1];
      TagsReleaseEach(v, tags[..n]);
      TagsReleaseFew(v, tags[..n]);
      OneMoreFits(v.wp, tags);
      OneMoreTag(v.wp, n, TagsChecked(v, tags[..n]), tag);
    }
  }

  lemma {:induction false} OneMoreFits(points: seq<word>, tags: seq<word>)
    requires 0 < |tags| <= |points|
    ensures var n := |tags| - 1;
            && (AllFit(points, tags) <==> AllFit(points, tags[..n]) && Fits(points[n], tags[n]))
            && Pairs(points[..n + 1], tags) == Pairs(points[..n], tags[..n]) + [Release(points[n], tags[n])]
  {
    assert points[..|tags|][..|tags| - 1] == points[..|tags| - 1];
  }

  /** One more tag, when n tags have left u's points of these. */
  lemma OneMoreTag(points: seq<word>, n: nat, u: Vehicle, tag: word)
    requires n < |points| <= MAX_WAYPOINTS && forall k :: 0 <= k < |points| ==> points[k] != 0
    requires |points| - n <= |u.wp| <= |points| && u.wp == points[|points| - |u.wp|..]
    ensures var u1 := Checked(u, tag);
            && (|u1.wp| == |points| - (n + 1) <==> |u.wp| == |points| - n && Fits(points[n], tag))
            && (|u1.wp| == |points| - (n + 1) ==> u1.released == u.released + [Release(points[n], tag)])
  {
    assert u.wp[0] == points[|points| - |u.wp|];
    MatchReleases(u, tag);
  }

  lemma {:induction false} AllReleased(v: Vehicle, tags: seq<word>)
    requires PointsOk(v) && |tags| == |v.wp|
    ensures var u := TagsChecked(v, tags);
            && (u.wp == [] <==> forall k :: 0 <= k < |tags| ==> v.wp[k] == tags[k] || v.wp[k] == 0xFFFF_FFFF)
            && (u.wp == [] ==> u.released == v.released + Pairs(v.wp, tags))
  {
    assert v.wp[..|tags|] == v.wp;
    TagsReleaseEach(v, tags);
  }

  lemma TagKeepsPoints(v: Vehicle, tag: word)
    requires PathInv(v)
    ensures PathInv(Checked(v, tag))
    ensures Checking(v, tag) == NoPoint <==> v.wp == []
    ensures Checking(v, tag) != Match ==> Checked(v, tag) == v
  {
    if v.wp != [] {
      var u := Checked(v, tag);
      assert v.wp == [v.wp[0]] + v.wp[1..];
      if Checking(v, tag) == Match {
        assert Passed(u.released) == Passed(v.released) + [v.wp[0]];
        assert Passed(u.released) + u.wp == Passed(v.released) + v.wp;
      }
    }
  }

  lemma CommandKeepsPath(v: Vehicle, action: word, len: nat, params: memory, answer: Answer, block: memory)
    requires PathInv(v)
    ensures PathInv(Accepted(v, action, len, params, answer, block))
  {
    var o := Order(|v.arrived|, action, action, len, params);
    var v1 := v.(arrived := v.arrived + [o]);
    SamePath(v, v1);
    var direct := action == STOP || v.cmds == [];
    if direct {
      MovingKeepsPoints(v1, o, answer);
      if Issuing(v1, o, answer) == OK {
        SamePath(Settled(Moved(v1, o, answer), o, OK), Tried(v1, o, answer, block));
      } else {
        SamePath(Moved(v1, o, answer), Tried(v1, o, answer, block));
      }
    } else {
      SamePath(v1, Queued(v1, o, block));
    }
  }

  lemma MotionKeepsPath(v: Vehicle, evt: Event, answer: Answer)
    requires PathInv(v) && v.cmds != []
    ensures PathInv(Reacted(v, evt, answer))
  {
    var v1 := v.(cmds := v.cmds[1..]);
    SamePath(v, v1);
    MovingKeepsPoints(v1, v.cmds[0], answer);
    var issuing := Settled(Moved(v1, v.cmds[0], answer), v.cmds[0], Issuing(v1, v.cmds[0], answer));
    SamePath(issuing, IssuedNext(v, answer));
    var back := v.(cmds := QPostFront(v.cmds[1..], MAX_COMMANDS, v.cmds[0]));
    SamePath(v, back);
    SamePath(Resumed(v, evt, answer), Reacted(v, evt, answer));
  }

  lemma StepKeepsPath(v: Vehicle, step: Step)
    requires PathInv(v)
    ensures PathInv(Apply(v, step))
  {
    match step
    case Command(action, len, params, answer, block) => CommandKeepsPath(v, action, len, params, answer, block);
    case Motion(evt, answer) =>
      if v.cmds != [] {
        MotionKeepsPath(v, evt, answer);
      } else {
        SamePath(v, Reacted(v, evt, answer));
      }
    case Tag(tag) => TagKeepsPoints(v, tag);
  }

  lemma {:induction false} RunKeepsPath(steps: seq<Step>, n: nat)
    requires n <= |steps|
    ensures PathInv(Run(steps, n))
  {
    forall v: Vehicle, step: Step | PathInv(v) ensures PathInv(Apply(v, step)) {
      StepKeepsPath(v, step);
    }
    RunInduction(v => PathInv(v), steps, n);
  }

  /** While the way-point queue never fills, the points of all issued moves are exactly the points released
      followed by those still locked; each released point matched the tag or was the wildcard; and no
      locked point is 0, so an empty queue is told from a locked one. */
  lemma {:induction false} WayPointHistory(steps: seq<Step>)
    ensures var v := Run(steps, |steps|);
            && (v.refused == [] ==> Path(v.issued) == Passed(v.released) + v.wp)
            && |Path(v.issued)| == |v.released| + |v.wp| + |v.refused|
            && (forall k :: 0 <= k < |v.wp| ==> v.wp[k] != 0)
            && forall k :: 0 <= k < |v.released| ==>
                 v.released[k].point == v.released[k].tag || v.released[k].point == ANYWHERE
  {
    RunKeepsPath(steps, |steps|);
  }

  /** After every run, as many tags as there are locked points empty the queue exactly when each of them is its
      point or the point is the wildcard; then each has released its own. */
  lemma {:induction false} PathIsReleased(steps: seq<Step>, tags: seq<word>)
    requires |tags| == |Run(steps, |steps|).wp|
    ensures var v := Run(steps, |steps|);
            var u := TagsChecked(v, tags);
            && (u.wp == [] <==> forall k :: 0 <= k < |tags| ==> v.wp[k] == tags[k] || v.wp[k] == 0xFFFF_FFFF)
            && (u.wp == [] ==> u.released == v.released + Pairs(v.wp, tags))
  {
    RunKeepsPath(steps, |steps|);
    AllReleased(Run(steps, |steps|), tags);
  }

  // ------------------------------------------------ chained moves

  /** The moves among the issued commands, by their start and end. */
  function Moves(issued: seq<Order>): seq<Move> {
    if issued == [] then []
    else
      var o := issued[|issued| - 1];
      Moves(issued[..|issued| - 1]) + if IsMove(o.action) then [Move(Start(o), End(o))] else []
  }

  lemma {:induction false} MovesAppend(issued: seq<Order>, o: Order)
    ensures Moves(issued + [o]) == Moves(issued) + if IsMove(o.action) then [Move(Start(o), End(o))] else []
  {
    assert (issued + [o])[..|issued|] == issued;
  }

  ghost predicate Chained(last: word, moves: seq<Move>) {
    && last == (if moves == [] then ANYWHERE else moves[|moves| - 1].end)
    && last != 0
    && forall k :: 0 <= k < |moves| - 1 ==> Joins(moves[k].end, moves[k + 1].start)
  }

  ghost predicate ChainInv(v: Vehicle) { Chained(v.last, v.moves) && v.moves == Moves(v.issued) }

  lemma DrivingKeepsChain(v: Vehicle, o: Order, u: Vehicle)
    requires ChainInv(v) && Joins(v.last, Start(o)) && u.issued == v.issued
    requires u.last == End(o) && u.moves == v.moves + [Move(Start(o), End(o))]
    ensures Chained(u.last, u.moves)
  {
    PointsAreNotZero(o.params, PointCount(o));
  }

  lemma SettledKeepsChain(v: Vehicle, o: Order, answer: Answer)
    requires ChainInv(v)
    ensures ChainInv(Settled(Moved(v, o, answer), o, Issuing(v, o, answer)))
    ensures Issuing(v, o, answer) != OK ==> ChainInv(Moved(v, o, answer))
  {
    var u := Moved(v, o, answer);
    OnlyMovesDrive(v, o, answer);
    MovesAppend(v.issued, o);
    if Issuing(v, o, answer) == OK && IsMove(o.action) {
      LockingKeepsCommands(v, WayPoints(o));
      DrivingKeepsChain(v, o, u);
    } else {
      SameChain(v, u);
      assert Moves(v.issued) + [] == Moves(v.issued);
    }
  }

  /** The chain looks at the last point, the moves and the issued commands only. */
  lemma SameChain(v: Vehicle, u: Vehicle)
    requires ChainInv(v) && u.last == v.last && u.moves == v.moves && u.issued == v.issued
    ensures ChainInv(u)
  {
  }

  lemma CommandKeepsChain(v: Vehicle, action: word, len: nat, params: memory, answer: Answer, block: memory)
    requires ChainInv(v)
    ensures ChainInv(Accepted(v, action, len, params, answer, block))
  {
    var o := Order(|v.arrived|, action, action, len, params);
    var v1 := v.(arrived := v.arrived + [o]);
    if action == STOP || v.cmds == [] {
      TryingKeepsChain(v1, o, answer, block);
    } else {
      SameChain(v1, Queued(v1, o, block));
    }
  }

  lemma TryingKeepsChain(v: Vehicle, o: Order, answer: Answer, block: memory)
    requires ChainInv(v)
    ensures ChainInv(Tried(v, o, answer, block))
  {
    SettledKeepsChain(v, o, answer);
    if Issuing(v, o, answer) == OK {
      SameChain(Settled(Moved(v, o, answer), o, OK), Tried(v, o, answer, block));
    } else {
      SameChain(Moved(v, o, answer), Tried(v, o, answer, block));
    }
  }

  lemma MotionKeepsChain(v: Vehicle, evt: Event, answer: Answer)
    requires ChainInv(v)
    ensures ChainInv(Reacted(v, evt, answer))
  {
    if v.cmds != [] {
      var v1 := v.(cmds := v.cmds[1..]);
      SettledKeepsChain(v1, v.cmds[0], answer);
      SameChain(Settled(Moved(v1, v.cmds[0], answer), v.cmds[0], Issuing(v1, v.cmds[0], answer)),
                IssuedNext(v, answer));
    }
    SameChain(Resumed(v, evt, answer), Reacted(v, evt, answer));
  }

  lemma StepKeepsChain(v: Vehicle, step: Step)
    requires ChainInv(v)
    ensures ChainInv(Apply(v, step))
  {
    match step
    case Command(action, len, params, answer, block) => CommandKeepsChain(v, action, len, params, answer, block);
    case Motion(evt, answer) => MotionKeepsChain(v, evt, answer);
    case Tag(tag) => SameChain(v, Checked(v, tag));
  }

  lemma {:induction false} RunKeepsChain(steps: seq<Step>, n: nat)
    requires n <= |steps|
    ensures ChainInv(Run(steps, n))
  {
    forall v: Vehicle, step: Step | ChainInv(v) ensures ChainInv(Apply(v, step)) {
      StepKeepsChain(v, step);
    }
    RunInduction(v => ChainInv(v), steps, n);
  }

  /** In every reachable state the last point is set, so the start of a move is always checked; any two
      consecutive accepted moves join, or one of the two ends is the wildcard; and a move is refused exactly
      when its start is neither the last point nor a wildcard, whatever the motion controller would answer. */
  lemma {:induction false} MovesAreChained(steps: seq<Step>, o: Order, answer: Answer)
    ensures var v := Run(steps, |steps|);
            && v.last != 0
            && (var moves := Moves(v.issued);
                forall k :: 0 <= k < |moves| - 1 ==>
                  || moves[k].end == moves[k + 1].start
                  || moves[k].end == 0xFFFF_FFFF || moves[k + 1].start == 0xFFFF_FFFF)
            && (o.action == 1 || o.action == 10 ==>
                  var p := Word(o.params, 8);
                  Issuing(v, o, answer) ==
                    if p == v.last || p == 0 || p == 0xFFFF_FFFF || v.last == 0xFFFF_FFFF then answer else INVALID)
  {
    RunKeepsChain(steps, |steps|);
  }

  // ------------------------------------------------ what a move locks

  /** A move that is issued does that. */
  lemma MoveLocksByDistance(v: Vehicle, o: Order, answer: Answer)
    requires IsMove(o.action) && Issuing(v, o, answer) == OK
    ensures var u := Moved(v, o, answer);
            && AsksByDistance(v.asked, u.asked, o.params, u.last)
            && |u.moves| == |v.moves| + 1 && u.moves[|v.moves|].end == u.last
            && StandsFor(Word(o.params, 8), u.moves[|v.moves|].start)
  {
    MoveAsks(v, o, answer);
    EndIsWord(o);
    WayPointsByDistance(v.asked, o);
  }

  lemma MoveAsks(v: Vehicle, o: Order, answer: Answer)
    requires IsMove(o.action) && Issuing(v, o, answer) == OK
    ensures var u := Moved(v, o, answer);
            u.asked == v.asked + WayPoints(o) && u.last == End(o) && u.moves == v.moves + [Move(Start(o), End(o))]
  {
    LockedAsks(v, WayPoints(o));
    OnlyMovesDrive(v, o, answer);
  }
}
