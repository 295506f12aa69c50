/**
 Programs over thread objects: any sequence of statements that construct, move,
 assign, swap, join, detach and destroy objects of module Ownership, and what it
 does to every kernel thread.
 */
module ThreadPrograms {
  import opened Pthreads
  import opened Ownership

  /** The statements of a program, naming its objects by their order of construction:
      thread t; thread t{f}; thread t{move(j)}; the end of i's life; i = thread{f};
      i = move(j); i.swap(j); i.join() or i.detach(). */
  datatype Op = Declare | Start | MoveFrom(j: nat) | Drop(i: nat)
    | Spawn(i: nat) | Assign(i: nat, j: nat) | Exchange(i: nat, j: nat) | Finish(i: nat, detach: bool)

  /** The ids the objects own (0 for none), the kernel's log, whether std::terminate was called,
      and the verify flag. */
  datatype Handles = Handles(impl: seq<nat>, log: seq<Event>, next: nat, status: Status, flag: bool)

  function Created(h: Handles): Handles {
    h.(log := h.log + [Started(h.next)], next := h.next + 1)
  }

  /** What one statement does. One that throws, or that names no object, changes nothing. */
  function Step(h: Handles, op: Op, debug: bool): Handles {
    match op
    case Declare => h.(impl := h.impl + [0])
    case Start => Created(h).(impl := h.impl + [h.next])
    case MoveFrom(j) =>
      if j >= |h.impl| then h else h.(impl := h.impl[j := 0] + [h.impl[j]])
    case Drop(i) =>
      if i >= |h.impl| then h
      else if h.impl[i] != 0 then h.(status := Terminated, flag := h.flag && !debug)
      else h.(impl := h.impl[..i] + h.impl[i + 1..])
    case Spawn(i) =>
      if i >= |h.impl| then h
      else if h.impl[i] != 0 then Created(h).(status := Terminated)
      else Created(h).(impl := h.impl[i := h.next])
    case Assign(i, j) =>
      if i >= |h.impl| || j >= |h.impl| then h
      else if h.impl[i] != 0 then h.(status := Terminated)
      else h.(impl := h.impl[i := h.impl[j]][j := 0])
    case Exchange(i, j) =>
      if i >= |h.impl| || j >= |h.impl| then h
      else h.(impl := h.impl[i := h.impl[j]][j := h.impl[i]])
    case Finish(i, detach) =>
      if i >= |h.impl| || h.impl[i] == 0 then h
      else h.(impl := h.impl[i := 0],
              log := h.log + [if detach then Detached(h.impl[i]) else Joined(h.impl[i])])
  }

  function Run(h: Handles, ops: seq<Op>, debug: bool): Handles
    decreases |ops|
  {
    if ops == [] || !h.status.Running? then h else Run(Step(h, ops[0], debug), ops[1..], debug)
  }

  ghost function Impls(threads: seq<Thread>): seq<nat>
    reads threads
  {
    seq(|threads|, i requires 0 <= i < |threads| reads threads => threads[i].impl)
  }

  ghost function Snapshot(world: World, threads: seq<Thread>): Handles
    reads world, world.kernel, world.verify, threads
  {
    Handles(Impls(threads), world.kernel.log, world.kernel.next, world.status, world.verify.value)
  }

  ghost predicate Holds(world: World, threads: seq<Thread>)
    reads world
  {
    && (forall i | 0 <= i < |threads| :: threads[i] in world.objects && threads[i].world == world)
    && (forall i, j | 0 <= i < j < |threads| :: threads[i] != threads[j])
  }

  /** Statements that construct or destroy an object. */
  method Lifetime(world: World, threads: seq<Thread>, op: Op) returns (now: seq<Thread>)
    requires world.Valid() && Holds(world, threads) && world.status.Running?
    requires op.Declare? || op.Start? || op.MoveFrom? || op.Drop?
    modifies world, world.kernel, world.verify, threads
    ensures world.Valid() && Holds(world, now)
    ensures Snapshot(world, now) == Step(old(Snapshot(world, threads)), op, world.debug)
    ensures forall t | t in now :: t in threads || fresh(t)
    ensures world.status.Running? ==>
              forall t | t in world.objects :: t in now || (t in old(world.objects) && t !in threads)
  {
    hide World.Valid;
    now := threads;
    if op.Declare? {
      var t := new Thread(world);
      now := threads + [t];
    } else if op.Start? {
      var t := new Thread.Spawn(world);
      now := threads + [t];
    } else if op.MoveFrom? {
      if op.j < |threads| {
        var t := new Thread.Move(world, threads[op.j]);
        now := threads + [t];
      }
    } else if op.i < |threads| {
      threads[op.i].Destroy();
      if world.status.Running? {
        now := threads[..op.i] + threads[op.i + 1..];
      }
    }
  }

  /** Statements on the objects there are. */
  method Perform(world: World, threads: seq<Thread>, op: Op)
    requires world.Valid() && Holds(world, threads) && world.status.Running?
    requires op.Spawn? || op.Assign? || op.Exchange? || op.Finish?
    modifies world, world.kernel, world.verify, threads
    ensures world.Valid() && Holds(world, threads)
    ensures Snapshot(world, threads) == Step(old(Snapshot(world, threads)), op, world.debug)
    ensures world.status.Running? ==> world.objects == old(world.objects)
  {
    hide World.Valid;
    match op {
      case Spawn(i) =>
        if i < |threads| {
          SpawnInto(threads[i], world);
        }
      case Assign(i, j) =>
        if i < |threads| && j < |threads| {
          threads[i].MoveAssign(threads[j]);
        }
      case Exchange(i, j) =>
        if i < |threads| && j < |threads| {
          threads[i].Swap(threads[j]);
        }
      case Finish(i, detach) =>
        if i < |threads| {
          var _ := threads[i].JoinOrDetach(detach);
        }
    }
  }

  // ---------- What becomes of one thread ----------

  datatype Fate = Unstarted | OwnedBy(i: nat) | WasJoined | WasDetached

  /** A program as one kernel thread sees it: what became of the thread, how many objects there
      are, and the next id. */
  datatype View = View(fate: Fate, objects: nat, next: nat)

  /** The thread id is started with the object constructed from it, goes along when its owner is
      moved from, swapped or renumbered, and ends when its owner is joined or detached. */
  function Follow(v: View, id: nat, op: Op): View {
    match op
    case Declare => v.(objects := v.objects + 1)
    case Start => View(if id == v.next then OwnedBy(v.objects) else v.fate, v.objects + 1, v.next + 1)
    case MoveFrom(j) =>
      if j >= v.objects then v
      else v.(fate := if v.fate == OwnedBy(j) then OwnedBy(v.objects) else v.fate, objects := v.objects + 1)
    case Drop(i) =>
      if i >= v.objects then v
      else v.(fate := if v.fate.OwnedBy? && v.fate.i > i then OwnedBy(v.fate.i - 1) else v.fate,
              objects := v.objects - 1)
    case Spawn(i) =>
      if i >= v.objects then v
      else v.(fate := if id == v.next then OwnedBy(i) else v.fate, next := v.next + 1)
    case Assign(i, j) =>
      if i < v.objects && v.fate == OwnedBy(j) then v.(fate := OwnedBy(i)) else v
    case Exchange(i, j) =>
      if i >= v.objects || j >= v.objects then v
      else if v.fate == OwnedBy(i) then v.(fate := OwnedBy(j))
      else if v.fate == OwnedBy(j) then v.(fate := OwnedBy(i))
      else v
    case Finish(i, detach) =>
      if v.fate == OwnedBy(i) then v.(fate := if detach then WasDetached else WasJoined) else v
  }

  function FollowAll(v: View, id: nat, ops: seq<Op>): View
    decreases |ops|
  {
    if ops == [] then v else FollowAll(Follow(v, id, ops[0]), id, ops[1..])
  }

  /** Every owned thread is live and has one owner. */
  ghost predicate Coherent(h: Handles) {
    && LogValid(h.log, h.next)
    && (forall i | 0 <= i < |h.impl| && h.impl[i] != 0 :: Live(h.log, h.impl[i]))
    && (forall i, j | 0 <= i < j < |h.impl| && h.impl[i] != 0 :: h.impl[i] != h.impl[j])
  }

  /** v tells the truth about the thread id. */
  predicate Sees(h: Handles, id: nat, v: View) {
    && v.objects == |h.impl| && v.next == h.next
    && match v.fate
       case Unstarted => id >= h.next
       case OwnedBy(i) => i < |h.impl| && h.impl[i] == id
       case WasJoined => Joined(id) in h.log
       case WasDetached => Detached(id) in h.log
  }

  lemma CreatedIsCoherent(h: Handles)
    requires Coherent(h)
    ensures LogValid(Created(h).log, Created(h).next) && Live(Created(h).log, h.next)
    ensures forall id: nat | Live(h.log, id) :: Live(Created(h).log, id) && 0 < id < h.next
    ensures forall id: nat :: (Joined(id) in Created(h).log <==> Joined(id) in h.log)
                              && (Detached(id) in Created(h).log <==> Detached(id) in h.log)
  {
    LogSnoc(h.log, h.next, Started(h.next));
  }

  lemma StartFate(h: Handles, op: Op, debug: bool, id: nat, v: View)
    requires op.Start? || op.Spawn?
    requires Coherent(h) && Sees(h, id, v) && id > 0 && Step(h, op, debug).status.Running?
    ensures Coherent(Step(h, op, debug)) && Sees(Step(h, op, debug), id, Follow(v, id, op))
  {
    CreatedIsCoherent(h);
    assert h.next > 0;
    hide LogValid, Live;
  }

  lemma FinishFate(h: Handles, op: Op, debug: bool, id: nat, v: View)
    requires op.Finish? && Coherent(h) && Sees(h, id, v) && id > 0 && Step(h, op, debug).status.Running?
    ensures Coherent(Step(h, op, debug)) && Sees(Step(h, op, debug), id, Follow(v, id, op))
  {
    var i := op.i;
    if i < |h.impl| && h.impl[i] != 0 {
      LogSnoc(h.log, h.next, if op.detach then Detached(h.impl[i]) else Joined(h.impl[i]));
      hide LogValid, Live;
    }
  }

  /** Objects appear or change hands, and the log stays as it is. */
  lemma MoveFate(h: Handles, op: Op, debug: bool, id: nat, v: View)
    requires op.Declare? || op.MoveFrom?
    requires Coherent(h) && Sees(h, id, v) && id > 0 && Step(h, op, debug).status.Running?
    ensures Coherent(Step(h, op, debug)) && Sees(Step(h, op, debug), id, Follow(v, id, op))
  {
    hide LogValid, Live;
  }

  lemma ExchangeFate(h: Handles, op: Op, debug: bool, id: nat, v: View)
    requires op.Assign? || op.Exchange?
    requires Coherent(h) && Sees(h, id, v) && id > 0 && Step(h, op, debug).status.Running?
    ensures Coherent(Step(h, op, debug)) && Sees(Step(h, op, debug), id, Follow(v, id, op))
  {
    hide LogValid, Live;
  }

  lemma DropFate(h: Handles, i: nat, debug: bool, id: nat, v: View)
    requires Coherent(h) && Sees(h, id, v) && id > 0 && Step(h, Drop(i), debug).status.Running?
    ensures Coherent(Step(h, Drop(i), debug)) && Sees(Step(h, Drop(i), debug), id, Follow(v, id, Drop(i)))
  {
    hide LogValid, Live;
    var u := Step(h, Drop(i), debug);
    if i < |h.impl| && h.impl[i] == 0 {
      assert forall k | 0 <= k < |u.impl| :: u.impl[k] == if k < i then h.impl[k] else h.impl[k + 1];
    }
  }

  lemma StepFate(h: Handles, op: Op, debug: bool, id: nat, v: View)
    requires Coherent(h) && Sees(h, id, v) && id > 0 && h.status.Running? && Step(h, op, debug).status.Running?
    ensures Coherent(Step(h, op, debug)) && Sees(Step(h, op, debug), id, Follow(v, id, op))
  {
    hide Coherent, Sees, Step, Follow;
    match op
    case Start => StartFate(h, op, debug, id, v);
    case Spawn(_) => StartFate(h, op, debug, id, v);
    case Finish(_, _) => FinishFate(h, op, debug, id, v);
    case Drop(i) => DropFate(h, i, debug, id, v);
    case Assign(_, _) => ExchangeFate(h, op, debug, id, v);
    case Exchange(_, _) => ExchangeFate(h, op, debug, id, v);
    case _ => MoveFate(h, op, debug, id, v);
  }

  /** The fate of every kernel thread: in a program that goes on without std::terminate, the
      handles and the log show for each thread what Follow says. */
  lemma {:induction false} EveryThreadsFate(h: Handles, ops: seq<Op>, debug: bool, id: nat, v: View)
    requires Coherent(h) && Sees(h, id, v) && id > 0 && h.status.Running?
    requires Run(h, ops, debug).status.Running?
    ensures Coherent(Run(h, ops, debug)) && Sees(Run(h, ops, debug), id, FollowAll(v, id, ops))
    decreases |ops|
  {
    if ops != [] {
      StepFate(h, ops[0], debug, id, v);
      EveryThreadsFate(Step(h, ops[0], debug), ops[1..], debug, id, Follow(v, id, ops[0]));
    }
  }

  // ---------- Laws of Run ----------

  lemma {:induction false} RunInTwo(h: Handles, a: seq<Op>, b: seq<Op>, debug: bool)
    ensures Run(h, a + b, debug) == Run(Run(h, a, debug), b, debug)
    decreases |a|
  {
    if a == [] {
      assert a + b == b;
    } else if h.status.Running? {
      assert (a + b)[0] == a[0] && (a + b)[1..] == a[1..] + b;
      RunInTwo(Step(h, a[0], debug), a[1..], b, debug);
    }
  }

  /** The log is only added to, by at most one event a statement. */
  lemma {:induction false} LogGrows(h: Handles, ops: seq<Op>, debug: bool)
    ensures h.log <= Run(h, ops, debug).log && |Run(h, ops, debug).log| <= |h.log| + |ops|
    decreases |ops|
  {
    if ops != [] && h.status.Running? {
      LogGrows(Step(h, ops[0], debug), ops[1..], debug);
    }
  }

  /** A program that never detaches adds no Detached event, and one that never joins no Joined
      event. */
  lemma {:induction false} OnlyWhatIsAsked(h: Handles, ops: seq<Op>, debug: bool, detach: bool, id: nat)
    requires forall k | 0 <= k < |ops| && ops[k].Finish? :: ops[k].detach != detach
    ensures var e := if detach then Detached(id) else Joined(id);
      e in Run(h, ops, debug).log <==> e in h.log
    decreases |ops|
  {
    if ops != [] && h.status.Running? {
      assert forall k | 0 <= k < |ops| - 1 :: ops[1..][k] == ops[k + 1];
      OnlyWhatIsAsked(Step(h, ops[0], debug), ops[1..], debug, detach, id);
    }
  }

  /** Each Start, and each Spawn of an object there is, starts one thread. */
  function Starts(ops: seq<Op>, objects: nat): nat
    decreases |ops|
  {
    if ops == [] then 0
    else
      Starts(ops[1..], Follow(View(Unstarted, objects, 0), 0, ops[0]).objects)
      + if ops[0].Start? || (ops[0].Spawn? && ops[0].i < objects) then 1 else 0
  }

  function CountStarted(log: seq<Event>): nat {
    if log == [] then 0
    else CountStarted(log[..|log| - 1]) + if log[|log| - 1].Started? then 1 else 0
  }

  lemma StepStarts(h: Handles, op: Op, debug: bool)
    requires Step(h, op, debug).status.Running?
    ensures CountStarted(Step(h, op, debug).log)
            == CountStarted(h.log) + if op.Start? || (op.Spawn? && op.i < |h.impl|) then 1 else 0
    ensures |Step(h, op, debug).impl| == Follow(View(Unstarted, |h.impl|, 0), 0, op).objects
  {
    var u := Step(h, op, debug);
    assert u.log != h.log ==> u.log[..|h.log|] == h.log;
  }

  lemma {:induction false} StartsAreCounted(h: Handles, ops: seq<Op>, debug: bool)
    requires h.status.Running? && Run(h, ops, debug).status.Running?
    ensures CountStarted(Run(h, ops, debug).log) == CountStarted(h.log) + Starts(ops, |h.impl|)
    decreases |ops|
  {
    if ops != [] {
      StepStarts(h, ops[0], debug);
      hide Step, Follow, CountStarted;
      StartsAreCounted(Step(h, ops[0], debug), ops[1..], debug);
    }
  }

  lemma ExchangedTwice(s: seq<nat>, i: nat, j: nat)
    requires i < |s| && j < |s|
    ensures var t := s[i := s[j]][j := s[i]];
      multiset(t) == multiset(s) && t[i := t[j]][j := t[i]] == s
  {
  }

  lemma RunOne(h: Handles, op: Op, debug: bool)
    requires h.status.Running?
    ensures Run(h, [op], debug) == Step(h, op, debug)
  {
    assert Run(h, [op], debug) == Run(Step(h, op, debug), [], debug);
  }

  /** swap permutes the owned ids, changes nothing else, and undoes itself. */
  lemma ExchangePermutes(h: Handles, i: nat, j: nat, debug: bool)
    requires h.status.Running?
    ensures var r := Run(h, [Exchange(i, j)], debug);
      && multiset(r.impl) == multiset(h.impl) && r == h.(impl := r.impl)
      && Run(r, [Exchange(i, j)], debug) == h
  {
    hide Run;
    RunOne(h, Exchange(i, j), debug);
    RunOne(Step(h, Exchange(i, j), debug), Exchange(i, j), debug);
    if i < |h.impl| && j < |h.impl| {
      ExchangedTwice(h.impl, i, j);
    }
  }

  /** The statement destroys, assigns to or spawns into an object that owns a thread. */
  predicate HitsOwner(h: Handles, op: Op) {
    match op
    case Drop(i) => i < |h.impl| && h.impl[i] != 0
    case Spawn(i) => i < |h.impl| && h.impl[i] != 0
    case Assign(i, j) => i < |h.impl| && j < |h.impl| && h.impl[i] != 0
    case _ => false
  }

  /** The program comes to statement k, and k is such a statement. */
  predicate StopsAt(h: Handles, ops: seq<Op>, debug: bool, k: nat) {
    && k < |ops|
    && Run(h, ops[..k], debug).status.Running?
    && HitsOwner(Run(h, ops[..k], debug), ops[k])
  }

  lemma StopsLater(h: Handles, ops: seq<Op>, debug: bool, k: nat)
    requires h.status.Running? && ops != []
    ensures StopsAt(h, ops, debug, 0) <==> HitsOwner(h, ops[0])
    ensures StopsAt(h, ops, debug, k + 1) <==> StopsAt(Step(h, ops[0], debug), ops[1..], debug, k)
  {
    if k + 1 < |ops| {
      var prefix := ops[..k + 1];
      assert prefix[0] == ops[0] && prefix[1..] == ops[1..][..k];
      assert Run(h, prefix, debug) == Run(Step(h, ops[0], debug), ops[1..][..k], debug);
    }
  }

  lemma HitsMeans(h: Handles, op: Op, debug: bool)
    requires h.status.Running?
    ensures Step(h, op, debug).status.Terminated? <==> HitsOwner(h, op)
    ensures Step(h, op, debug).flag == (h.flag && !(debug && op.Drop? && HitsOwner(h, op)))
  {
  }

  /** The program stops at some statement, one that destroys an object if drop. */
  ghost predicate Stops(h: Handles, ops: seq<Op>, debug: bool, drop: bool) {
    exists k: nat :: StopsAt(h, ops, debug, k) && (drop ==> ops[k].Drop?)
  }

  lemma StopsFirstOrLater(h: Handles, ops: seq<Op>, debug: bool, drop: bool)
    requires h.status.Running? && ops != []
    ensures Stops(h, ops, debug, drop) <==>
            || (HitsOwner(h, ops[0]) && (drop ==> ops[0].Drop?))
            || Stops(Step(h, ops[0], debug), ops[1..], debug, drop)
  {
    hide Step, HitsOwner, Run;
    var u := Step(h, ops[0], debug);
    StopsLater(h, ops, debug, 0);
    if Stops(h, ops, debug, drop) {
      var k: nat :| StopsAt(h, ops, debug, k) && (drop ==> ops[k].Drop?);
      if k > 0 {
        StopsLater(h, ops, debug, k - 1);
        assert ops[1..][k - 1] == ops[k];
      }
    }
    if Stops(u, ops[1..], debug, drop) {
      var k: nat :| StopsAt(u, ops[1..], debug, k) && (drop ==> ops[1..][k].Drop?);
      StopsLater(h, ops, debug, k);
      assert ops[1..][k] == ops[k + 1];
    }
  }

  /** std::terminate is called exactly at the first such statement; it is the only one that can
      fail a VERIFY, in a debug build, when it destroys the object. */
  lemma {:induction false} TerminatesExactlyWhen(h: Handles, ops: seq<Op>, debug: bool)
    requires h.status.Running?
    ensures Run(h, ops, debug).status.Terminated? <==> Stops(h, ops, debug, false)
    ensures Run(h, ops, debug).flag == (h.flag && !(debug && Stops(h, ops, debug, true)))
    decreases |ops|
  {
    if ops != [] {
      var u := Step(h, ops[0], debug);
      HitsMeans(h, ops[0], debug);
      StopsFirstOrLater(h, ops, debug, false);
      StopsFirstOrLater(h, ops, debug, true);
      if u.status.Running? {
        TerminatesExactlyWhen(u, ops[1..], debug);
      } else {
        NeverStopsAgain(u, ops[1..], debug);
      }
    }
  }

  lemma NeverStopsAgain(h: Handles, ops: seq<Op>, debug: bool)
    requires h.status.Terminated?
    ensures Run(h, ops, debug) == h && !Stops(h, ops, debug, false) && !Stops(h, ops, debug, true)
  {
  }

  lemma SnapshotIsCoherent(world: World, threads: seq<Thread>)
    requires world.Valid() && Holds(world, threads)
    ensures Coherent(Snapshot(world, threads))
  {
    hide LogValid;
    assert forall i | 0 <= i < |threads| && threads[i].impl != 0 :: threads[i].impl in LiveIds(world.kernel.log, world.kernel.next);
  }

  /** Whatever a program does with its thread objects, until it ends or std::terminate is called:
      the objects own what Run says, every thread has the fate that Follow tells, and ownership is
      conserved. When the program started with
      all objects in its hands, a created thread is owned by one of its objects exactly if it was
      neither joined nor detached; so with no object left, every thread was. */
  method AnyProgram(world: World, threads: seq<Thread>, ops: seq<Op>) returns (now: seq<Thread>)
    requires world.Valid() && Holds(world, threads) && world.status.Running?
    modifies world, world.kernel, world.verify, threads
    ensures world.Valid() && Holds(world, now)
    ensures Snapshot(world, now) == Run(old(Snapshot(world, threads)), ops, world.debug)
    ensures world.status.Running? ==>
              forall id: nat, v | id > 0 && Sees(old(Snapshot(world, threads)), id, v) ::
                Sees(Snapshot(world, now), id, FollowAll(v, id, ops))
    ensures world.status.Running? && (forall t | t in old(world.objects) :: t in threads) ==>
              forall id: nat | 1 <= id < world.kernel.next ::
                Joined(id) !in world.kernel.log && Detached(id) !in world.kernel.log
                <==> exists i :: 0 <= i < |now| && now[i].impl == id
  {
    hide Step;
    SnapshotIsCoherent(world, threads);
    ghost var before := Snapshot(world, threads);
    now := threads;
    for k := 0 to |ops|
      invariant world.Valid() && Holds(world, now)
      invariant forall t | t in now :: t in threads || fresh(t)
      invariant Run(Snapshot(world, now), ops[k..], world.debug)
                == Run(old(Snapshot(world, threads)), ops, world.debug)
      invariant world.status.Running? ==>
                  forall t | t in world.objects :: t in now || (t in old(world.objects) && t !in threads)
    {
      if !world.status.Running? {
        return;
      }
      assert ops[k..][0] == ops[k] && ops[k..][1..] == ops[k + 1..];
      var op := ops[k];
      if op.Declare? || op.Start? || op.MoveFrom? || op.Drop? {
        now := Lifetime(world, now, op);
      } else {
        Perform(world, now, op);
      }
    }
    world.IdsAreConserved();
    if world.status.Running? {
      forall id: nat, v | id > 0 && Sees(before, id, v)
        ensures Sees(Snapshot(world, now), id, FollowAll(v, id, ops))
      {
        EveryThreadsFate(before, ops, world.debug, id, v);
      }
    }
  }
}
