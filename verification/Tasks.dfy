/**
 mono_task and poly_task of include/preempt/task.h, over preempt::thread.
 */
module Tasks {
  import opened Pthreads
  import opened Ownership

  // ---------- The events of one task ----------

  /** The events in the log that concern the given thread ids. */
  function Own(log: seq<Event>, ids: set<nat>): seq<Event> {
    if log == [] then []
    else
      var last := |log| - 1;
      Own(log[..last], ids) + if log[last].id in ids then [log[last]] else []
  }

  lemma OwnSnoc(log: seq<Event>, e: Event, ids: set<nat>)
    ensures Own(log + [e], ids) == Own(log, ids) + if e.id in ids then [e] else []
  {
    assert (log + [e])[..|log|] == log;
  }

  lemma {:induction false} OwnNewId(log: seq<Event>, ids: set<nat>, id: nat)
    requires forall e | e in log :: e.id != id
    ensures Own(log, ids + {id}) == Own(log, ids)
  {
    if log != [] {
      assert log[|log| - 1] in log;
      OwnNewId(log[..|log| - 1], ids, id);
    }
  }

  /** One thread after the other: each is joined before the next is started. current is the one
      not yet joined, or 0. */
  predicate Serial(h: seq<Event>, current: nat) {
    if h == [] then current == 0
    else
      var last := |h| - 1;
      match h[last]
      case Started(id) => id != 0 && current == id && Serial(h[..last], 0)
      case Joined(id) => id != 0 && current == 0 && Serial(h[..last], id)
      case Detached(_) => false
  }

  /** The started ids, in order. */
  function Spawned(h: seq<Event>): seq<nat> {
    if h == [] then []
    else
      var last := |h| - 1;
      Spawned(h[..last]) + if h[last].Started? then [h[last].id] else []
  }

  function StartJoin(ids: seq<nat>): seq<Event> {
    if ids == [] then []
    else
      var last := |ids| - 1;
      StartJoin(ids[..last]) + [Started(ids[last]), Joined(ids[last])]
  }

  /** Serial means: started and joined, one id at a time, in the order of spawning. */
  lemma {:induction false} SerialMeans(h: seq<Event>, current: nat)
    requires Serial(h, current)
    ensures current == 0 ==> h == StartJoin(Spawned(h))
    ensures current != 0 ==>
              var n := |Spawned(h)|;
              n > 0 && Spawned(h)[n - 1] == current
              && h == StartJoin(Spawned(h)[..n - 1]) + [Started(current)]
  {
    if h != [] {
      var last := |h| - 1;
      var before := h[..last];
      SerialMeans(before, if h[last].Started? then 0 else h[last].id);
      assert h == before + [h[last]];
      if h[last].Started? {
        assert Spawned(h)[..|Spawned(before)|] == Spawned(before);
      } else {
        var ids := Spawned(before);
        assert Spawned(h) == ids;
        assert StartJoin(ids)
               == StartJoin(ids[..|ids| - 1]) + [Started(ids[|ids| - 1])] + [Joined(ids[|ids| - 1])];
      }
    }
  }

  // ---------- mono_task ----------

  class MonoTask {
    const world: World
    const thread: Thread
    ghost var ids: set<nat>

    ghost predicate Valid()
      reads this, world, world.kernel, world.objects
    {
      && world.Valid() && world.status.Running? && thread in world.objects
      && Serial(History(), thread.impl)
      && forall id | id in ids :: id < world.kernel.next
    }

    /** What happened to the threads of this task. */
    ghost function History(): seq<Event>
      reads this, world, world.kernel
    {
      Own(world.kernel.log, ids)
    }

    constructor (world: World)
      requires world.Valid() && world.status.Running?
      modifies world
      ensures this.world == world && Valid() && fresh(thread)
      ensures ids == {} && History() == [] && !thread.Joinable()
    {
      this.world := world;
      var t := new Thread(world);
      thread, ids := t, {};
      new;
      NoOwnEvents(world.kernel.log);
    }

    method Joinable() returns (b: bool)
      ensures b == thread.Joinable()
    {
      b := thread.Joinable();
    }

    /** Join a running thread, if there is one; the join never throws. */
    method Join()
      requires Valid()
      modifies world, world.kernel, thread
      ensures Valid() && ids == old(ids) && !thread.Joinable()
      ensures world.kernel.next == old(world.kernel.next)
      ensures world.kernel.log == old(world.kernel.log)
                                  + if old(thread.Joinable()) then [Joined(old(thread.impl))] else []
      ensures History() == old(History())
                           + if old(thread.Joinable()) then [Joined(old(thread.impl))] else []
    {
      var b := Joinable();
      if b {
        JoinedIsOwn(world.kernel.log, thread.impl, ids);
        var threw := thread.JoinOrDetach(false);
        assert !threw;
      }
    }

    /** Join, then construct a thread and move it in: the move assignment never finds a joinable
        target, and the temporary is destroyed empty. */
    method Spawn()
      requires Valid()
      modifies this, world, world.kernel, world.verify, thread
      ensures Valid() && thread.Joinable() && thread.impl == old(world.kernel.next)
      ensures ids == old(ids) + {thread.impl}
      ensures History() == old(History())
                           + (if old(thread.Joinable()) then [Joined(old(thread.impl))] else [])
                           + [Started(thread.impl)]
      ensures world.kernel.next == old(world.kernel.next) + 1
      ensures world.kernel.log == old(world.kernel.log)
                                  + (if old(thread.Joinable()) then [Joined(old(thread.impl))] else [])
                                  + [Started(thread.impl)]
      ensures world.verify.value == old(world.verify.value)
    {
      hide Own, Serial, LogValid, Live;
      Join();
      StartedIsOwn(world.kernel.log, world.kernel.next, ids);
      SpawnInto(thread, world);
      ids := ids + {thread.impl};
    }
  }

  lemma StartedIsOwn(log: seq<Event>, next: nat, ids: set<nat>)
    requires LogValid(log, next) && Serial(Own(log, ids), 0)
    ensures Own(log + [Started(next)], ids + {next}) == Own(log, ids) + [Started(next)]
    ensures Serial(Own(log, ids) + [Started(next)], next)
  {
    var before := Own(log, ids);
    NewIdIsUnused(log, next);
    OwnNewId(log, ids, next);
    OwnSnoc(log, Started(next), ids + {next});
    assert (before + [Started(next)])[..|before|] == before;
  }

  lemma JoinedIsOwn(log: seq<Event>, id: nat, ids: set<nat>)
    requires Serial(Own(log, ids), id) && id != 0
    ensures Own(log + [Joined(id)], ids) == Own(log, ids) + [Joined(id)]
    ensures Serial(Own(log, ids) + [Joined(id)], 0)
  {
    var before := Own(log, ids);
    LastIsOwn(log, ids, id);
    OwnSnoc(log, Joined(id), ids);
    assert (before + [Joined(id)])[..|before|] == before;
  }

  lemma {:induction false} NoOwnEvents(log: seq<Event>)
    ensures Own(log, {}) == []
  {
    if log != [] {
      NoOwnEvents(log[..|log| - 1]);
    }
  }

  lemma NewIdIsUnused(log: seq<Event>, next: nat)
    requires LogValid(log, next)
    ensures forall e | e in log :: e.id != next
  {
    assert Started(next) !in log && Joined(next) !in log && Detached(next) !in log;
  }

  lemma {:induction false} OwnIdsOnly(log: seq<Event>, ids: set<nat>)
    ensures forall e | e in Own(log, ids) :: e.id in ids
  {
    if log != [] {
      OwnIdsOnly(log[..|log| - 1], ids);
    }
  }

  lemma LastIsOwn(log: seq<Event>, ids: set<nat>, id: nat)
    requires Serial(Own(log, ids), id) && id != 0
    ensures id in ids
  {
    OwnIdsOnly(log, ids);
    var h := Own(log, ids);
    assert h[|h| - 1] in h;
  }

  datatype TaskOp = SpawnOp | JoinOp

  function CountSpawns(ops: seq<TaskOp>): nat {
    if ops == [] then 0
    else CountSpawns(ops[..|ops| - 1]) + if ops[|ops| - 1].SpawnOp? then 1 else 0
  }

  lemma CountOneMore(ops: seq<TaskOp>, k: nat)
    ensures CountSpawns(ops[..0]) == 0
    ensures k < |ops| ==>
              CountSpawns(ops[..k + 1]) == CountSpawns(ops[..k]) + if ops[k].SpawnOp? then 1 else 0
  {
    if k < |ops| {
      assert ops[..k + 1][..k] == ops[..k];
    }
  }

  function Consecutive(first: nat, n: nat): seq<nat> {
    seq(n, i requires 0 <= i < n => first + i)
  }

  lemma StartJoinOneMore(first: nat, n: nat)
    ensures StartJoin(Consecutive(first, n + 1))
            == StartJoin(Consecutive(first, n)) + [Started(first + n), Joined(first + n)]
  {
    var ids := Consecutive(first, n + 1);
    assert ids[..n] == Consecutive(first, n) && ids[n] == first + n;
  }

  /** What n spawns, each preceded by the join it needs, add to the log; open: the last one is
      not joined yet. */
  function MonoEvents(first: nat, n: nat, open: bool): seq<Event>
    requires open ==> n > 0
  {
    if open then StartJoin(Consecutive(first, n - 1)) + [Started(first + n - 1)]
    else StartJoin(Consecutive(first, n))
  }

  lemma MonoEventsAfter(first: nat, n: nat, open: bool)
    requires open ==> n > 0
    ensures MonoEvents(first, n, false)
            == MonoEvents(first, n, open) + if open then [Joined(first + n - 1)] else []
    ensures MonoEvents(first, n + 1, true) == MonoEvents(first, n, false) + [Started(first + n)]
  {
    if open {
      StartJoinOneMore(first, n - 1);
    }
  }

  /** After n spawns and any joins between them, on a kernel that began with first and log. */
  ghost predicate MonoState(task: MonoTask, first: nat, log: seq<Event>, n: nat)
    reads task, task.world, task.world.kernel, task.thread, task.world.objects
  {
    && task.Valid()
    && task.world.kernel.next == first + n
    && (task.thread.Joinable() ==> n > 0 && task.thread.impl == first + n - 1)
    && task.world.kernel.log == log + MonoEvents(first, n, task.thread.Joinable())
  }

  lemma Appended(log: seq<Event>, a: seq<Event>, b: seq<Event>, c: seq<Event>)
    ensures log + a + b + c == log + (a + b + c)
  {
  }

  method StartMonoTask(world: World) returns (task: MonoTask)
    requires world.Valid() && world.status.Running?
    modifies world
    ensures fresh(task) && fresh(task.thread) && task.world == world
    ensures MonoState(task, world.kernel.next, world.kernel.log, 0)
  {
    task := new MonoTask(world);
    assert Consecutive(world.kernel.next, 0) == [];
  }

  lemma MonoStateMeans(task: MonoTask, first: nat, log: seq<Event>, n: nat)
    requires MonoState(task, first, log, n) && !task.thread.Joinable()
    ensures task.Valid() && task.world.kernel.next == first + n
    ensures task.world.kernel.log == log + StartJoin(Consecutive(first, n))
  {
  }

  method JoinInTurn(task: MonoTask, ghost first: nat, ghost log: seq<Event>, ghost n: nat)
    requires MonoState(task, first, log, n)
    modifies task.world, task.world.kernel, task.thread
    ensures MonoState(task, first, log, n) && !task.thread.Joinable()
  {
    MonoEventsAfter(first, n, task.thread.Joinable());
    hide MonoTask.Valid, MonoEvents;
    task.Join();
  }

  method SpawnInTurn(task: MonoTask, ghost first: nat, ghost log: seq<Event>, ghost n: nat)
    requires MonoState(task, first, log, n)
    modifies task, task.world, task.world.kernel, task.world.verify, task.thread
    ensures MonoState(task, first, log, n + 1)
    ensures task.world.verify.value == old(task.world.verify.value)
  {
    ghost var open := task.thread.Joinable();
    MonoEventsAfter(first, n, open);
    hide MonoTask.Valid, MonoTask.History, MonoEvents, Own;
    task.Spawn();
    Appended(log, MonoEvents(first, n, open), if open then [Joined(first + n - 1)] else [],
             [Started(first + n)]);
  }

  method PerformInTurn(task: MonoTask, op: TaskOp, ghost first: nat, ghost log: seq<Event>, ghost n: nat)
    requires MonoState(task, first, log, n)
    modifies task, task.world, task.world.kernel, task.world.verify, task.thread
    ensures MonoState(task, first, log, if op.SpawnOp? then n + 1 else n)
    ensures task.world.verify.value == old(task.world.verify.value)
  {
    hide MonoState;
    match op {
      case SpawnOp => SpawnInTurn(task, first, log, n);
      case JoinOp => JoinInTurn(task, first, log, n);
    }
  }

  /** Any sequence of spawns and joins, closed by a join: no VERIFY fails, nothing throws or
      terminates, and what happened in the kernel is that each spawned thread was started and
      then joined before the next one was started, in the order of spawning. */
  method RunMonoTask(world: World, ops: seq<TaskOp>) returns (task: MonoTask)
    requires world.Valid() && world.status.Running?
    modifies world, world.kernel, world.verify
    ensures fresh(task) && task.world == world && task.Valid() && !task.thread.Joinable()
    ensures world.verify.value == old(world.verify.value)
    ensures world.kernel.next == old(world.kernel.next) + CountSpawns(ops)
    ensures world.kernel.log
            == old(world.kernel.log) + StartJoin(Consecutive(old(world.kernel.next), CountSpawns(ops)))
  {
    ghost var first, log := world.kernel.next, world.kernel.log;
    hide *;
    task := StartMonoTask(world);
    CountOneMore(ops, 0);
    ghost var n := 0;
    for i := 0 to |ops|
      invariant fresh(task) && fresh(task.thread) && task.world == world
      invariant MonoState(task, first, log, n) && n == CountSpawns(ops[..i])
      invariant world.verify.value == old(world.verify.value)
    {
      CountOneMore(ops, i);
      PerformInTurn(task, ops[i], first, log, n);
      n := if ops[i].SpawnOp? then n + 1 else n;
    }
    assert ops[..|ops|] == ops;
    JoinInTurn(task, first, log, n);
    MonoStateMeans(task, first, log, n);
  }

  // ---------- poly_task ----------

  function JoinAllEvents(ids: seq<nat>): seq<Event> {
    seq(|ids|, i requires 0 <= i < |ids| => Joined(ids[i]))
  }

  /** The first object that owns nothing. */
  function FirstEmpty(ids: seq<nat>): (k: nat)
    ensures k <= |ids|
    ensures forall i | 0 <= i < k :: ids[i] != 0
    ensures k < |ids| ==> ids[k] == 0
  {
    if ids == [] || ids[0] == 0 then 0 else 1 + FirstEmpty(ids[1..])
  }

  /** The first k objects own nothing any more. */
  function Cleared(ids: seq<nat>, k: nat): seq<nat> {
    seq(|ids|, i requires 0 <= i < |ids| => if i < k then 0 else ids[i])
  }

  lemma ClearOneMore(ids: seq<nat>, k: nat)
    ensures Cleared(ids, 0) == ids
    ensures k < |ids| ==> Cleared(ids, k)[k] == ids[k] && Cleared(ids, k)[k := 0] == Cleared(ids, k + 1)
    ensures k < |ids| && ids[k] == 0 ==> Cleared(ids, k + 1) == Cleared(ids, k)
  {
  }

  lemma FirstEmptyIs(ids: seq<nat>, k: nat)
    requires k <= |ids| && (k < |ids| ==> ids[k] == 0) && forall i | 0 <= i < k :: ids[i] != 0
    ensures FirstEmpty(ids) == k
  {
  }

  lemma JoinOneMore(ids: seq<nat>, id: nat)
    ensures JoinAllEvents([]) == []
    ensures JoinAllEvents(ids + [id]) == JoinAllEvents(ids) + [Joined(id)]
  {
  }

  class PolyTask {
    const world: World
    var threads: seq<Thread>
    var capacity: nat

    ghost predicate Valid()
      reads this, world, world.kernel, world.objects
    {
      && world.Valid() && world.status.Running? && world.kernel.next > 0
      && |threads| <= capacity
      && (forall i | 0 <= i < |threads| :: threads[i] in world.objects && threads[i].world == world)
      && (forall i, j | 0 <= i < j < |threads| :: threads[i] != threads[j])
    }

    ghost function Ids(): seq<nat>
      reads this, threads
    {
      seq(|threads|, i requires 0 <= i < |threads| reads this, threads => threads[i].impl)
    }

    constructor (world: World)
      requires world.Valid() && world.status.Running?
      ensures this.world == world && Valid() && threads == []
    {
      this.world, threads, capacity := world, [], 0;
    }

    /** The vector grows: every thread object is moved into new storage and the old one is
        destroyed. No thread is lost, joined or duplicated. */
    method Grow()
      requires Valid()
      modifies this, world, world.verify, threads
      ensures Valid() && Ids() == old(Ids()) && capacity > old(capacity)
      ensures fresh(threads) && world.verify.value == old(world.verify.value)
      ensures forall t | t in old(world.objects) && t !in old(threads) :: t in world.objects
    {
      hide World.Valid;
      var moved: seq<Thread> := [];
      for i := 0 to |threads|
        invariant world.Valid() && world.status.Running? && threads == old(threads)
        invariant capacity == old(capacity)
        invariant |moved| == i && fresh(moved)
        invariant forall k | 0 <= k < i :: moved[k] in world.objects && moved[k].impl == old(threads[k].impl)
        invariant forall j, k | 0 <= j < k < i :: moved[j] != moved[k]
        invariant forall k | i <= k < |threads| ::
                    threads[k] in world.objects && threads[k].impl == old(threads[k].impl)
        invariant forall k | 0 <= k < i :: moved[k].world == world
        invariant world.verify.value == old(world.verify.value)
        invariant forall t | t in old(world.objects) && t !in threads :: t in world.objects
      {
        var t := Relocate(threads[i], world);
        moved := moved + [t];
      }
      threads, capacity := moved, if capacity == 0 then 1 else 2 * capacity;
    }

    /** There is room: move the new element in. */
    method PushBack(temporary: Thread)
      requires Valid() && |threads| < capacity
      requires temporary in world.objects && temporary.world == world && temporary !in threads
      modifies this, world, world.verify, temporary
      ensures Valid() && Ids() == old(Ids()) + [old(temporary.impl)]
      ensures forall i | 0 <= i < |threads| :: threads[i] in old(threads) || fresh(threads[i])
      ensures world.verify.value == old(world.verify.value)
    {
      hide World.Valid;
      var t := Relocate(temporary, world);
      threads := threads + [t];
      assert forall i | 0 <= i < |threads| - 1 :: threads[i] == old(threads)[i];
    }

    /** emplace_back of a temporary thread object. */
    method Spawn()
      requires Valid()
      modifies this, world, world.kernel, world.verify, threads
      ensures Valid() && Ids() == old(Ids()) + [old(world.kernel.next)]
      ensures forall i | 0 <= i < |threads| :: threads[i] in old(threads) || fresh(threads[i])
      ensures world.kernel.log == old(world.kernel.log) + [Started(old(world.kernel.next))]
      ensures world.kernel.next == old(world.kernel.next) + 1
      ensures world.verify.value == old(world.verify.value)
    {
      hide World.Valid;
      var temporary := new Thread.Spawn(world);
      if |threads| == capacity {
        Grow();
      }
      PushBack(temporary);
    }

    /** join does not look at joinable: it joins in order until an object owns nothing, and
        there std::thread::join throws. */
    method Join() returns (threw: bool)
      requires Valid()
      modifies world, world.kernel, threads
      ensures Valid() && threads == old(threads) && world.kernel.next == old(world.kernel.next)
      ensures var k := FirstEmpty(old(Ids()));
        && (threw <==> k < |threads|)
        && world.kernel.log == old(world.kernel.log) + JoinAllEvents(old(Ids())[..k])
        && Ids() == Cleared(old(Ids()), k)
    {
      hide World.Valid, JoinAllEvents, FirstEmpty, Cleared;
      ghost var ids := Ids();
      JoinOneMore([], 0);
      ClearOneMore(ids, 0);
      for i := 0 to |threads|
        invariant Valid() && threads == old(threads)
        invariant world.kernel.next == old(world.kernel.next)
        invariant forall k | 0 <= k < i :: ids[k] != 0
        invariant world.kernel.log == old(world.kernel.log) + JoinAllEvents(ids[..i])
        invariant Ids() == Cleared(ids, i)
      {
        ClearOneMore(ids, i);
        threw := JoinAt(i);
        if threw {
          FirstEmptyIs(ids, i);
          return;
        }
        JoinOneMore(ids[..i], ids[i]);
        assert ids[..i + 1] == ids[..i] + [ids[i]];
      }
      FirstEmptyIs(ids, |ids|);
      threw := false;
    }

    method JoinAt(i: nat) returns (threw: bool)
      requires Valid() && i < |threads|
      modifies world`owner, world.kernel, threads[i]
      ensures Valid() && threads == old(threads) && world.kernel.next == old(world.kernel.next)
      ensures threw <==> old(Ids())[i] == 0
      ensures Ids() == old(Ids())[i := 0]
      ensures world.kernel.log
              == old(world.kernel.log) + if threw then [] else [Joined(old(Ids())[i])]
    {
      hide World.Valid;
      threw := threads[i].JoinOrDetach(false);
    }

    /** Some held thread is not joined. */
    method Joinable() returns (b: bool)
      ensures b <==> exists i :: 0 <= i < |threads| && Ids()[i] != 0
    {
      for i := 0 to |threads|
        invariant forall k | 0 <= k < i :: Ids()[k] == 0
      {
        if threads[i].Joinable() {
          assert Ids()[i] != 0;
          return true;
        }
      }
      b := false;
    }
  }

  /** Some join has come after some spawn. The vector is never cleared, so that it now begins
      with an object that owns nothing. */
  predicate UsedUp(ops: seq<TaskOp>) {
    && ops != []
    && var before := ops[..|ops| - 1];
       UsedUp(before) || (ops[|ops| - 1].JoinOp? && CountSpawns(before) > 0)
  }

  /** Yet another join has come after that. */
  predicate JoinsAgain(ops: seq<TaskOp>) {
    && ops != []
    && var before := ops[..|ops| - 1];
       JoinsAgain(before) || (ops[|ops| - 1].JoinOp? && UsedUp(before))
  }

  lemma {:induction false} CountSpawnsPositive(ops: seq<TaskOp>)
    ensures CountSpawns(ops) > 0 <==> exists i :: 0 <= i < |ops| && ops[i].SpawnOp?
  {
    if ops != [] {
      CountSpawnsPositive(ops[..|ops| - 1]);
    }
  }

  lemma {:induction false} UsedUpMeans(ops: seq<TaskOp>)
    ensures UsedUp(ops) <==> exists i, j :: 0 <= i < j < |ops| && ops[i].SpawnOp? && ops[j].JoinOp?
  {
    if ops != [] {
      UsedUpMeans(ops[..|ops| - 1]);
      CountSpawnsPositive(ops[..|ops| - 1]);
    }
  }

  /** A spawn, a join later, and one more join after that. */
  lemma {:induction false} JoinsAgainMeans(ops: seq<TaskOp>)
    ensures JoinsAgain(ops) <==>
            exists i, j, k :: 0 <= i < j < k < |ops|
                              && ops[i].SpawnOp? && ops[j].JoinOp? && ops[k].JoinOp?
  {
    if ops != [] {
      JoinsAgainMeans(ops[..|ops| - 1]);
      UsedUpMeans(ops[..|ops| - 1]);
    }
  }

  /** The spawns before the first join that has something to join; 0 if there is none. */
  function FirstRound(ops: seq<TaskOp>): nat {
    if ops == [] then 0
    else
      var last := |ops| - 1;
      if UsedUp(ops[..last]) then FirstRound(ops[..last])
      else if ops[last].JoinOp? then CountSpawns(ops[..last])
      else 0
  }

  lemma {:induction false} FirstRoundMeans(ops: seq<TaskOp>)
    ensures UsedUp(ops) <==> FirstRound(ops) > 0
    ensures UsedUp(ops) ==>
              exists j :: && 0 <= j < |ops| && ops[j].JoinOp? && CountSpawns(ops[..j]) == FirstRound(ops)
                          && forall i | 0 <= i < j && ops[i].JoinOp? :: CountSpawns(ops[..i]) == 0
  {
    if UsedUp(ops) {
      var last := |ops| - 1;
      var before := ops[..last];
      FirstRoundMeans(before);
      if UsedUp(before) {
        var j :| && 0 <= j < last && before[j].JoinOp? && CountSpawns(before[..j]) == FirstRound(before)
                 && forall i | 0 <= i < j && before[i].JoinOp? :: CountSpawns(before[..i]) == 0;
        assert ops[..j] == before[..j];
        assert forall i | 0 <= i < j :: before[i] == ops[i] && before[..i] == ops[..i];
      } else {
        JoinsBeforeFindNothing(ops, last);
      }
    } else if ops != [] {
      FirstRoundMeans(ops[..|ops| - 1]);
    }
  }

  lemma {:induction false} JoinsBeforeFindNothing(ops: seq<TaskOp>, k: nat)
    requires k <= |ops| && !UsedUp(ops[..k])
    ensures forall i | 0 <= i < k && ops[i].JoinOp? :: CountSpawns(ops[..i]) == 0
    decreases k
  {
    if k > 0 {
      assert ops[..k][..k - 1] == ops[..k - 1];
      JoinsBeforeFindNothing(ops, k - 1);
    }
  }

  function StartAllEvents(ids: seq<nat>): seq<Event> {
    seq(|ids|, i requires 0 <= i < |ids| => Started(ids[i]))
  }

  lemma StartOneMore(ids: seq<nat>, id: nat)
    ensures StartAllEvents([]) == []
    ensures StartAllEvents(ids + [id]) == StartAllEvents(ids) + [Started(id)]
  {
  }

  /** Of n spawned threads the first a have been joined, before any other was spawned. */
  function PolyEvents(first: nat, n: nat, a: nat): seq<Event>
    requires a <= n
  {
    StartAllEvents(Consecutive(first, a)) + JoinAllEvents(Consecutive(first, a))
    + StartAllEvents(Consecutive(first + a, n - a))
  }

  function HeldIds(first: nat, n: nat, a: nat): seq<nat> {
    seq(n, i requires 0 <= i < n => if i < a then 0 else first + i)
  }

  lemma PolyEventsAfter(first: nat, n: nat, a: nat)
    requires a <= n
    ensures PolyEvents(first, n + 1, a) == PolyEvents(first, n, a) + [Started(first + n)]
    ensures PolyEvents(first, n, n) == PolyEvents(first, n, 0) + JoinAllEvents(Consecutive(first, n))
    ensures PolyEvents(first, 0, 0) == []
  {
    StartOneMore(Consecutive(first + a, n - a), first + n);
    JoinOneMore([], 0);
    assert Consecutive(first + a, n + 1 - a) == Consecutive(first + a, n - a) + [first + n];
    assert Consecutive(first, 0) == [] && Consecutive(first + n, 0) == [];
  }

  /** After n spawns, the first a of them joined, on a kernel that began with first and log. */
  ghost predicate PolyState(task: PolyTask, first: nat, log: seq<Event>, n: nat, a: nat)
    requires a <= n
    reads task, task.threads, task.world, task.world.kernel, task.world.objects
  {
    && task.Valid() && first > 0
    && task.Ids() == HeldIds(first, n, a)
    && task.world.kernel.next == first + n
    && task.world.kernel.log == log + PolyEvents(first, n, a)
  }

  method StartPolyTask(world: World) returns (task: PolyTask)
    requires world.Valid() && world.status.Running?
    ensures fresh(task) && task.world == world && task.threads == []
    ensures PolyState(task, world.kernel.next, world.kernel.log, 0, 0)
  {
    task := new PolyTask(world);
    PolyEventsAfter(world.kernel.next, 0, 0);
  }

  method SpawnAfter(task: PolyTask, ghost first: nat, ghost log: seq<Event>, ghost n: nat, ghost a: nat)
    requires a <= n && PolyState(task, first, log, n, a)
    modifies task, task.world, task.world.kernel, task.world.verify, task.threads
    ensures PolyState(task, first, log, n + 1, a)
    ensures forall i | 0 <= i < |task.threads| :: task.threads[i] in old(task.threads) || fresh(task.threads[i])
    ensures task.world.verify.value == old(task.world.verify.value)
  {
    PolyEventsAfter(first, n, a);
    hide World.Valid, PolyEvents;
    task.Spawn();
    assert HeldIds(first, n + 1, a) == HeldIds(first, n, a) + [first + n];
  }

  lemma FirstEmptyOfHeld(first: nat, n: nat, a: nat)
    requires first > 0 && a <= n
    ensures var ids := HeldIds(first, n, a);
      var k := FirstEmpty(ids);
      && k == (if a > 0 then 0 else n)
      && Cleared(ids, k) == HeldIds(first, n, if a > 0 then a else n)
      && JoinAllEvents(ids[..k]) == if a > 0 then [] else JoinAllEvents(Consecutive(first, n))
  {
    var ids := HeldIds(first, n, a);
    if a > 0 {
      FirstEmptyIs(ids, 0);
      JoinOneMore([], 0);
    } else {
      FirstEmptyIs(ids, n);
      assert ids[..n] == Consecutive(first, n);
    }
  }

  /** The first round joins everything; from then on the first object owns nothing. */
  method JoinAfter(task: PolyTask, ghost first: nat, ghost log: seq<Event>, ghost n: nat, ghost a: nat)
      returns (threw: bool)
    requires a <= n && PolyState(task, first, log, n, a)
    modifies task.world, task.world.kernel, task.threads
    ensures task.threads == old(task.threads)
    ensures threw <==> a > 0
    ensures PolyState(task, first, log, n, if threw then a else n)
  {
    PolyEventsAfter(first, n, a);
    FirstEmptyOfHeld(first, n, a);
    hide World.Valid, PolyEvents, JoinAllEvents, FirstEmpty, Consecutive, HeldIds, Cleared;
    threw := task.Join();
  }

  method Perform(task: PolyTask, op: TaskOp, ghost first: nat, ghost log: seq<Event>, ghost n: nat, ghost a: nat)
      returns (threw: bool)
    requires a <= n && PolyState(task, first, log, n, a)
    modifies task, task.world, task.world.kernel, task.world.verify, task.threads
    ensures threw <==> op.JoinOp? && a > 0
    ensures PolyState(task, first, log, if op.SpawnOp? then n + 1 else n, if op.JoinOp? && a == 0 then n else a)
    ensures forall i | 0 <= i < |task.threads| :: task.threads[i] in old(task.threads) || fresh(task.threads[i])
    ensures task.world.verify.value == old(task.world.verify.value)
  {
    hide PolyState;
    match op {
      case SpawnOp =>
        SpawnAfter(task, first, log, n, a);
        threw := false;
      case JoinOp =>
        threw := JoinAfter(task, first, log, n, a);
    }
  }

  lemma NothingDone()
    ensures CountSpawns([]) == FirstRound([]) == 0 && !JoinsAgain([])
  {
  }

  lemma OneMoreOp(ops: seq<TaskOp>, k: nat)
    requires k < |ops| && !JoinsAgain(ops[..k])
    ensures var n, a := CountSpawns(ops[..k]), FirstRound(ops[..k]);
      var n', a' := CountSpawns(ops[..k + 1]), FirstRound(ops[..k + 1]);
      match ops[k]
      case SpawnOp => n' == n + 1 && a' == a && !JoinsAgain(ops[..k + 1])
      case JoinOp => n' == n && (JoinsAgain(ops[..k + 1]) <==> a > 0) && (a == 0 ==> a' == n)
  {
    FirstRoundMeans(ops[..k]);
    assert ops[..k + 1][..k] == ops[..k];
  }

  /** Any sequence of spawns and joins on a poly_task: a join throws exactly when an earlier one
      already had something to join. done statements are performed before that; up to there each
      spawned thread was started once, the threads of the first round were then joined once and
      in order, and all later ones are still held. */
  method RunPolyTask(world: World, ops: seq<TaskOp>) returns (task: PolyTask, threw: bool, done: nat)
    requires world.Valid() && world.status.Running?
    modifies world, world.kernel, world.verify
    ensures task.world == world && task.Valid() && world.verify.value == old(world.verify.value)
    ensures done <= |ops| && (threw <==> JoinsAgain(ops)) && !JoinsAgain(ops[..done])
    ensures if threw then done < |ops| && JoinsAgain(ops[..done + 1]) else done == |ops|
    ensures var n, a, first := CountSpawns(ops[..done]), FirstRound(ops[..done]), old(world.kernel.next);
      && a <= n
      && task.Ids() == HeldIds(first, n, a)
      && world.kernel.next == first + n
      && world.kernel.log == old(world.kernel.log) + PolyEvents(first, n, a)
  {
    ghost var first, log := world.kernel.next, world.kernel.log;
    task := StartPolyTask(world);
    threw, done := false, 0;
    NothingDone();
    hide *;
    ghost var n, a := 0, 0;
    while done < |ops|
      invariant done <= |ops| && !JoinsAgain(ops[..done])
      invariant fresh(task) && task.world == world
      invariant forall k | 0 <= k < |task.threads| :: fresh(task.threads[k])
      invariant a <= n == CountSpawns(ops[..done]) && a == FirstRound(ops[..done])
      invariant PolyState(task, first, log, n, a)
      invariant world.verify.value == old(world.verify.value)
    {
      OneMoreOp(ops, done);
      threw := Perform(task, ops[done], first, log, n, a);
      if threw {
        JoinsAgainStays(ops, done + 1);
        break;
      }
      a := if ops[done].JoinOp? && a == 0 then n else a;
      n := if ops[done].SpawnOp? then n + 1 else n;
      done := done + 1;
    }
    assert ops[..|ops|] == ops;
    PolyStateMeans(task, first, log, n, a);
  }

  lemma PolyStateMeans(task: PolyTask, first: nat, log: seq<Event>, n: nat, a: nat)
    requires a <= n && PolyState(task, first, log, n, a)
    ensures task.Valid() && task.Ids() == HeldIds(first, n, a)
    ensures task.world.kernel.next == first + n
    ensures task.world.kernel.log == log + PolyEvents(first, n, a)
  {
  }

  lemma {:induction false} JoinsAgainStays(ops: seq<TaskOp>, k: nat)
    requires k <= |ops| && JoinsAgain(ops[..k])
    ensures JoinsAgain(ops)
    decreases |ops| - k
  {
    if k == |ops| {
      assert ops[..k] == ops;
    } else {
      assert ops[..k + 1][..k] == ops[..k];
      JoinsAgainStays(ops, k + 1);
    }
  }

  /** n spawns, across every growth of the vector, and one join: all n threads are started, then
      each of them is joined once, in order, and nothing is joinable any more. */
  method SpawnAllJoinOnce(world: World, n: nat) returns (task: PolyTask, threw: bool, joinable: bool)
    requires world.Valid() && world.status.Running?
    modifies world, world.kernel, world.verify
    ensures world.Valid() && world.status.Running? && !threw && !joinable
    ensures var ids := Consecutive(old(world.kernel.next), n);
      world.kernel.log == old(world.kernel.log) + StartAllEvents(ids) + JoinAllEvents(ids)
  {
    ghost var first, log := world.kernel.next, world.kernel.log;
    task := StartPolyTask(world);
    hide PolyState, PolyEvents;
    for k := 0 to n
      invariant fresh(task) && task.world == world && PolyState(task, first, log, k, 0)
      invariant forall k | 0 <= k < |task.threads| :: fresh(task.threads[k])
    {
      SpawnAfter(task, first, log, k, 0);
    }
    threw := JoinAfter(task, first, log, n, 0);
    PolyStateMeans(task, first, log, n, n);
    AllJoined(first, n);
    joinable := task.Joinable();
  }

  lemma AllJoined(first: nat, n: nat)
    ensures PolyEvents(first, n, n)
            == StartAllEvents(Consecutive(first, n)) + JoinAllEvents(Consecutive(first, n))
  {
    assert StartAllEvents(Consecutive(first + n, 0)) == [];
  }
}
