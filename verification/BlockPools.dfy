/** Pools of equal blocks that travel through a queue of the same size, with any number of activities
    interleaved between kernel calls. The receive pool (4 blocks), the action pool (4), the event pool (16)
    and the command pool (8) of usr/application/agvcp.c and agv.c are used in this way; a task that fills a
    block while it still holds another one of the same pool counts as two activities.
  */
module BlockPools {
  import opened OsKernel

  /** Between two kernel calls: holding a block being filled, one that the queue has refused, or one taken
      from the queue. */
  datatype Activity = Idle | Filling(b: nat) | Refused(b: nat) | Using(b: nat)

  /** leaked: blocks that nobody refers to any more. */
  datatype Pool = Pool(free: seq<nat>, queue: seq<nat>, tasks: seq<Activity>, leaked: seq<nat>)

  datatype Step =
    | Get(t: nat)                   // OSMemGet
    | Post(t: nat, checked: bool)   // OSQPost, with its result looked at or not
    | PostUrgent(t: nat)            // OSQPostFront, unchecked
    | Abandon(t: nat)               // OSMemPut of a block that was not posted
    | Return(t: nat)                // OSMemPut after a refused post
    | Accept(t: nat)                // OSQAccept or OSQPend
    | PushBack(t: nat)              // OSQPostFront of the block just taken, unchecked
    | Finish(t: nat)                // OSMemPut after use

  function AllBlocks(n: nat): seq<nat> { seq(n, i requires 0 <= i < n => i) }

  function Created(n: nat, tasks: nat): Pool {
    Pool(AllBlocks(n), [], seq(tasks, i requires 0 <= i < tasks => Idle), [])
  }

  /** `OSMemPut`: refused when every block is already free. */
  function Put(n: nat, s: Pool, t: nat, b: nat): Pool
    requires t < |s.tasks|
  {
    var s1 := s.(tasks := s.tasks[t := Idle]);
    if |s.free| >= n then s1.(leaked := s.leaked + [b]) else s1.(free := [b] + s.free)
  }

  /** A post that the queue accepts; otherwise the block stays with a caller that looks, or is leaked. */
  function Posted(n: nat, s: Pool, t: nat, b: nat, front: bool, checked: bool): Pool
    requires t < |s.tasks|
  {
    if !QFull(s.queue, n) then
      s.(queue := if front then QPostFront(s.queue, n, b) else QPost(s.queue, n, b), tasks := s.tasks[t := Idle])
    else if checked then
      s.(tasks := s.tasks[t := Refused(b)])
    else
      s.(tasks := s.tasks[t := Idle], leaked := s.leaked + [b])
  }

  function Apply(n: nat, s: Pool, step: Step): Pool {
    if step.t >= |s.tasks| then s
    else
      var t, a := step.t, s.tasks[step.t];
      match step
      case Get(_) =>
        if a == Idle && s.free != [] then s.(free := s.free[1..], tasks := s.tasks[t := Filling(s.free[0])]) else s
      case Post(_, checked) => if a.Filling? then Posted(n, s, t, a.b, false, checked) else s
      case PostUrgent(_) => if a.Filling? then Posted(n, s, t, a.b, true, false) else s
      case Abandon(_) => if a.Filling? then Put(n, s, t, a.b) else s
      case Return(_) => if a.Refused? then Put(n, s, t, a.b) else s
      case Accept(_) =>
        if a == Idle && s.queue != [] then s.(queue := s.queue[1..], tasks := s.tasks[t := Using(s.queue[0])]) else s
      case PushBack(_) => if a.Using? then Posted(n, s, t, a.b, true, false) else s
      case Finish(_) => if a.Using? then Put(n, s, t, a.b) else s
  }

  function Run(n: nat, tasks: nat, steps: seq<Step>, k: nat): Pool
    requires k <= |steps|
  {
    if k == 0 then Created(n, tasks) else Apply(n, Run(n, tasks, steps, k - 1), steps[k - 1])
  }

  // ------------------------------------------------ the partition

  function BlockOf(a: Activity): multiset<nat> { if a == Idle then multiset{} else multiset{a.b} }

  function Held(tasks: seq<Activity>): multiset<nat> {
    if tasks == [] then multiset{} else Held(tasks[..|tasks| - 1]) + BlockOf(tasks[|tasks| - 1])
  }

  lemma {:induction false} HeldAppend(tasks: seq<Activity>, a: Activity)
    ensures Held(tasks + [a]) == Held(tasks) + BlockOf(a)
  {
    assert (tasks + [a])[..|tasks|] == tasks;
  }

  lemma UpdatedInit(tasks: seq<Activity>, t: nat, a: Activity)
    requires t < |tasks|
    ensures var m := |tasks| - 1;
            tasks[t := a] == if t == m then tasks[..m] + [a] else tasks[..m][t := a] + [tasks[m]]
  {
  }

  /** Changing one activity changes what is held by that activity's block only. */
  lemma {:induction false} HeldChanges(tasks: seq<Activity>, t: nat, a: Activity)
    requires t < |tasks|
    ensures Held(tasks[t := a]) + BlockOf(tasks[t]) == Held(tasks) + BlockOf(a)
    decreases |tasks|
  {
    var init, last := tasks[..|tasks| - 1], tasks[|tasks| - 1];
    UpdatedInit(tasks, t, a);
    if t == |tasks| - 1 {
      HeldAppend(init, a);
    } else {
      HeldAppend(init[t := a], last);
      HeldChanges(init, t, a);
      Regroup(Held(init[t := a]), BlockOf(tasks[t]), Held(init), BlockOf(a), BlockOf(last));
    }
  }

  lemma Regroup(a: multiset<nat>, b: multiset<nat>, c: multiset<nat>, d: multiset<nat>, e: multiset<nat>)
    requires a + b == c + d
    ensures (a + e) + b == (c + e) + d
  {
    assert (a + e) + b == (a + b) + e;
    assert (c + e) + d == (c + d) + e;
  }

  ghost predicate Partition(n: nat, free: seq<nat>, queue: seq<nat>, held: multiset<nat>) {
    multiset(free) + multiset(queue) + held == multiset(AllBlocks(n))
  }

  ghost predicate Kept(n: nat, s: Pool) {
    && Partition(n, s.free, s.queue, Held(s.tasks)) && s.leaked == []
    && (forall t :: 0 <= t < |s.tasks| ==> !s.tasks[t].Refused?)
  }

  lemma PartitionCounts(n: nat, free: seq<nat>, queue: seq<nat>, held: multiset<nat>)
    requires Partition(n, free, queue, held)
    ensures |free| + |queue| + |held| == n
  {
    assert |multiset(free) + multiset(queue) + held| == |multiset(AllBlocks(n))|;
  }

  /** Blocks move between the parts one at a time. */
  lemma FreeMoves(n: nat, b: nat, free: seq<nat>, queue: seq<nat>, held: multiset<nat>)
    ensures Partition(n, [b] + free, queue, held) <==> Partition(n, free, queue, held + multiset{b})
  {
    assert multiset([b] + free) == multiset{b} + multiset(free);
  }

  lemma QueueMoves(n: nat, b: nat, free: seq<nat>, queue: seq<nat>, held: multiset<nat>)
    ensures Partition(n, free, [b] + queue, held) <==> Partition(n, free, queue, held + multiset{b})
    ensures Partition(n, free, queue + [b], held) <==> Partition(n, free, queue, held + multiset{b})
  {
    assert multiset([b] + queue) == multiset{b} + multiset(queue);
    assert multiset(queue + [b]) == multiset(queue) + multiset{b};
  }

  /** An activity that holds a block leaves room for it everywhere. */
  lemma HolderHasRoom(n: nat, s: Pool, t: nat)
    requires Kept(n, s) && t < |s.tasks| && s.tasks[t] != Idle
    ensures |s.queue| < n && |s.free| < n
    ensures Held(s.tasks) == Held(s.tasks[t := Idle]) + multiset{s.tasks[t].b}
  {
    HeldChanges(s.tasks, t, Idle);
    PartitionCounts(n, s.free, s.queue, Held(s.tasks));
  }

  lemma HeldTakes(tasks: seq<Activity>, t: nat, a: Activity)
    requires t < |tasks| && tasks[t] == Idle && a != Idle
    ensures Held(tasks[t := a]) == Held(tasks) + multiset{a.b}
  {
    HeldChanges(tasks, t, a);
    assert Held(tasks[t := a]) + multiset{} == Held(tasks[t := a]);
  }

  lemma GettingKeeps(n: nat, s: Pool, t: nat)
    requires Kept(n, s) && t < |s.tasks| && s.tasks[t] == Idle && s.free != []
    ensures Kept(n, s.(free := s.free[1..], tasks := s.tasks[t := Filling(s.free[0])]))
  {
    var b := s.free[0];
    assert s.free == [b] + s.free[1..];
    HeldTakes(s.tasks, t, Filling(b));
    FreeMoves(n, b, s.free[1..], s.queue, Held(s.tasks));
  }

  lemma AcceptingKeeps(n: nat, s: Pool, t: nat)
    requires Kept(n, s) && t < |s.tasks| && s.tasks[t] == Idle && s.queue != []
    ensures Kept(n, s.(queue := s.queue[1..], tasks := s.tasks[t := Using(s.queue[0])]))
  {
    var b := s.queue[0];
    assert s.queue == [b] + s.queue[1..];
    HeldTakes(s.tasks, t, Using(b));
    QueueMoves(n, b, s.free, s.queue[1..], Held(s.tasks));
  }

  lemma GivingKeeps(n: nat, s: Pool, t: nat, front: bool, checked: bool)
    requires Kept(n, s) && t < |s.tasks| && s.tasks[t] != Idle
    ensures Kept(n, Put(n, s, t, s.tasks[t].b))
    ensures Kept(n, Posted(n, s, t, s.tasks[t].b, front, checked))
  {
    var b := s.tasks[t].b;
    HolderHasRoom(n, s, t);
    FreeMoves(n, b, s.free, s.queue, Held(s.tasks[t := Idle]));
    QueueMoves(n, b, s.free, s.queue, Held(s.tasks[t := Idle]));
  }

  lemma StepKeeps(n: nat, s: Pool, step: Step)
    requires Kept(n, s)
    ensures Kept(n, Apply(n, s, step))
  {
    if step.t < |s.tasks| {
      if s.tasks[step.t] == Idle {
        if step.Get? && s.free != [] {
          GettingKeeps(n, s, step.t);
        }
        if step.Accept? && s.queue != [] {
          AcceptingKeeps(n, s, step.t);
        }
      } else {
        GivingKeeps(n, s, step.t, !step.Post?, step.Post? && step.checked);
      }
    }
  }

  // ------------------------------------------------ what the steps achieve

  /** The first free block goes through an empty queue and back: whether it is posted, pushed back once after it
      was taken, or abandoned before, in the end everything is as it was. */
  lemma BlockComesBack(n: nat, s: Pool, t: nat, checked: bool)
    requires t < |s.tasks| && s.tasks[t] == Idle && s.free != [] && s.queue == [] && |s.free| <= n
    ensures var filling := Apply(n, s, Get(t));
            var posted := Apply(n, filling, Post(t, checked));
            var using := Apply(n, posted, Accept(t));
            && filling.tasks[t] == Filling(s.free[0]) && filling.free == s.free[1..]
            && posted == s.(free := s.free[1..], queue := [s.free[0]])
            && using.tasks[t] == Using(s.free[0]) && using.queue == []
            && Apply(n, filling, Abandon(t)) == s && Apply(n, filling, PostUrgent(t)) == posted
            && Apply(n, using, PushBack(t)) == posted && Apply(n, using, Finish(t)) == s
  {
    var b, rest := s.free[0], s.free[1..];
    assert [b] + rest == s.free;
    var filling := Apply(n, s, Get(t));
    assert filling.tasks[t := Idle] == s.tasks;
    assert [] + [b] == [b] && [b] + [] == [b];
    var posted := Apply(n, filling, Post(t, checked));
    assert posted == s.(free := rest, queue := [b]);
    var using := Apply(n, posted, Accept(t));
    assert using == s.(free := rest, queue := [], tasks := s.tasks[t := Using(b)]);
    assert using.tasks[t := Idle] == s.tasks;
  }

  /** The queue is in order: a block is posted behind the others, or urgently before them, and the first is taken. */
  lemma QueueIsInOrder(n: nat, s: Pool, t: nat, b: nat, checked: bool)
    requires t < |s.tasks| && |s.queue| < n
    ensures s.tasks[t] == Filling(b) ==>
              && Apply(n, s, Post(t, checked)).queue == s.queue + [b]
              && Apply(n, s, PostUrgent(t)).queue == [b] + s.queue
    ensures s.tasks[t] == Using(b) ==> Apply(n, s, PushBack(t)).queue == [b] + s.queue
    ensures s.tasks[t] == Idle && s.queue != [] ==>
              var u := Apply(n, s, Accept(t)); u.tasks[t] == Using(s.queue[0]) && u.queue == s.queue[1..]
  {
  }

  /** If a queue were full, a caller that looks would keep its block and could return it, and any other would
      lose it. */
  lemma RefusedPost(n: nat, s: Pool, t: nat, b: nat)
    requires t < |s.tasks| && s.tasks[t] == Filling(b) && |s.queue| >= n
    ensures Apply(n, s, Post(t, true)) == s.(tasks := s.tasks[t := Refused(b)])
    ensures Apply(n, s, Post(t, false)) == s.(tasks := s.tasks[t := Idle], leaked := s.leaked + [b])
    ensures Apply(n, s, PostUrgent(t)) == s.(tasks := s.tasks[t := Idle], leaked := s.leaked + [b])
    ensures |s.free| < n ==> Apply(n, Apply(n, s, Post(t, true)), Return(t)) == Apply(n, s, Abandon(t))
  {
    assert s.tasks[t := Refused(b)][t := Idle] == s.tasks[t := Idle];
  }

  lemma {:induction false} NothingHeld(tasks: nat)
    ensures Held(seq(tasks, i requires 0 <= i < tasks => Idle)) == multiset{}
  {
    if tasks > 0 {
      var all := seq(tasks, i requires 0 <= i < tasks => Idle);
      assert all[..tasks - 1] == seq(tasks - 1, i requires 0 <= i < tasks - 1 => Idle);
      NothingHeld(tasks - 1);
    }
  }

  lemma {:induction false} RunKeeps(n: nat, tasks: nat, steps: seq<Step>, k: nat)
    requires k <= |steps|
    ensures Kept(n, Run(n, tasks, steps, k))
  {
    if k == 0 {
      NothingHeld(tasks);
    } else {
      RunKeeps(n, tasks, steps, k - 1);
      StepKeeps(n, Run(n, tasks, steps, k - 1), steps[k - 1]);
    }
  }

  /** In every interleaving: each of the n blocks is free, queued or held by one activity, and only one of
      these; none is leaked; and no post or return of a held block is ever refused. */
  lemma {:induction false} PoolIsConserved(n: nat, tasks: nat, steps: seq<Step>, t: nat)
    ensures var s := Run(n, tasks, steps, |steps|);
            && multiset(s.free) + multiset(s.queue) + Held(s.tasks) == multiset(AllBlocks(n))
            && s.leaked == []
            && (t < |s.tasks| && s.tasks[t] != Idle ==> !QFull(s.queue, n) && |s.free| < n && !s.tasks[t].Refused?)
  {
    RunKeeps(n, tasks, steps, |steps|);
    var s := Run(n, tasks, steps, |steps|);
    if t < |s.tasks| && s.tasks[t] != Idle {
      HolderHasRoom(n, s, t);
    }
  }

  predicate AllIdle(tasks: seq<Activity>) { forall t :: 0 <= t < |tasks| ==> tasks[t] == Idle }

  lemma {:induction false} IdleHoldNothing(tasks: seq<Activity>)
    requires AllIdle(tasks)
    ensures Held(tasks) == multiset{}
  {
    if tasks != [] {
      IdleHoldNothing(tasks[..|tasks| - 1]);
    }
  }

  /** When no activity is under way, every block is free or queued. */
  lemma {:induction false} NothingLeaks(n: nat, tasks: nat, steps: seq<Step>)
    requires AllIdle(Run(n, tasks, steps, |steps|).tasks)
    ensures var s := Run(n, tasks, steps, |steps|); |s.free| + |s.queue| == n
  {
    RunKeeps(n, tasks, steps, |steps|);
    var s := Run(n, tasks, steps, |steps|);
    IdleHoldNothing(s.tasks);
    PartitionCounts(n, s.free, s.queue, Held(s.tasks));
  }
}
