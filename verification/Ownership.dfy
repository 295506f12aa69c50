/**
 preempt::thread of include/preempt/thread.h: an object that owns at most one
 kernel thread and hands it on by moves. A World holds all such objects.
 */
module Ownership {
  import opened Harness
  import opened Pthreads

  /** Terminated: std::terminate was called. */
  datatype Status = Running | Terminated

  class World {
    const kernel: Kernel
    const verify: VerifyFlag
    const debug: bool
    var status: Status
    ghost var objects: set<Thread>
    ghost var owner: map<nat, Thread>

    /** Every live kernel thread is owned by exactly one object, and every object owns a live
        thread or none. */
    ghost predicate Valid()
      reads this, kernel, objects
    {
      && kernel.Valid()
      && (forall t | t in objects :: t.world == this)
      && (forall t | t in objects && t.impl != 0 :: t.impl in owner && owner[t.impl] == t)
      && (forall id | id in owner :: owner[id] in objects && owner[id].impl == id)
      && owner.Keys == LiveIds(kernel.log, kernel.next)
    }

    /** debug: the library was compiled without NDEBUG. */
    constructor (verify: VerifyFlag, debug: bool)
      ensures Valid() && fresh(kernel) && objects == {} && status.Running? && kernel.log == []
      ensures this.verify == verify && this.debug == debug
    {
      this.verify, this.debug := verify, debug;
      kernel := new Kernel();
      status, objects, owner := Running, {}, map[];
    }

    /** Conservation: the ids created so far are the disjoint union of the owned, the joined
        and the detached ones, and no two objects own the same one. */
    lemma IdsAreConserved()
      requires Valid()
      ensures forall id: nat :: 1 <= id < kernel.next <==>
                id in owner || Joined(id) in kernel.log || Detached(id) in kernel.log
      ensures forall id | id in owner :: Joined(id) !in kernel.log && Detached(id) !in kernel.log
      ensures forall id: nat :: !(Joined(id) in kernel.log && Detached(id) in kernel.log)
      ensures forall t, u | t in objects && u in objects && t != u && t.impl == u.impl :: t.impl == 0
    {
    }
  }

  class Thread {
    const world: World
    var impl: nat

    /** A default-constructed object: it owns nothing. */
    constructor (world: World)
      requires world.Valid()
      modifies world
      ensures this.world == world && impl == 0
      ensures world.Valid() && world.objects == old(world.objects) + {this}
      ensures world.status == old(world.status) && world.owner == old(world.owner)
    {
      this.world, impl := world, 0;
      new;
      world.objects := world.objects + {this};
    }

    /** Construction with a function: a new kernel thread. */
    constructor Spawn(world: World)
      requires world.Valid()
      modifies world, world.kernel
      ensures this.world == world && impl == old(world.kernel.next)
      ensures world.Valid() && world.objects == old(world.objects) + {this}
      ensures world.status == old(world.status)
      ensures world.kernel.log == old(world.kernel.log) + [Started(impl)]
      ensures world.kernel.next == impl + 1
    {
      this.world := world;
      LiveIdsSnoc(world.kernel.log, world.kernel.next, Started(world.kernel.next));
      assert world.kernel.next !in LiveIds(world.kernel.log, world.kernel.next);
      hide LogValid, LiveIds, Live;
      assert world.kernel.next !in world.owner;
      var id := world.kernel.Start();
      impl := id;
      new;
      world.objects := world.objects + {this};
      world.owner := world.owner[id := this];
    }

    /** Move construction: the thread changes hands, other is left without one. */
    constructor Move(world: World, other: Thread)
      requires world.Valid() && other in world.objects
      modifies world, other
      ensures this.world == world && impl == old(other.impl) && other.impl == 0
      ensures world.Valid() && world.objects == old(world.objects) + {this}
      ensures world.status == old(world.status)
    {
      hide LogValid, LiveIds;
      this.world := world;
      impl := other.impl;
      new;
      world.objects := world.objects + {this};
      if impl != 0 {
        world.owner := world.owner[impl := this];
      }
      other.impl := 0;
    }

    predicate Joinable()
      reads this
    {
      impl != 0
    }

    /** Move assignment. std::thread calls std::terminate when the target is joinable, also when
        other is the target itself; otherwise it swaps. */
    method MoveAssign(other: Thread)
      requires world.Valid() && this in world.objects && other in world.objects
      modifies world, this, other
      ensures world.Valid() && world.objects == old(world.objects)
      ensures world.status == if old(Joinable()) then Terminated else old(world.status)
      ensures if old(Joinable()) then impl == old(impl) && other.impl == old(other.impl)
              else impl == old(other.impl) && other.impl == 0
    {
      if impl != 0 {
        world.status := Terminated;
      } else {
        Swap(other);
      }
    }

    method Swap(other: Thread)
      requires world.Valid() && this in world.objects && other in world.objects
      modifies world`owner, this, other
      ensures world.Valid()
      ensures impl == old(other.impl) && other.impl == old(impl)
    {
      assert 0 !in world.owner;
      hide LogValid, LiveIds, Joinable;
      if other == this {
        return;
      }
      var mine, theirs := impl, other.impl;
      ghost var owner := world.owner;
      impl, other.impl := theirs, mine;
      world.owner := map id | id in owner ::
        if owner[id] == this then other else if owner[id] == other then this else owner[id];
      assert world.owner.Keys == owner.Keys;
    }

    /** std::thread::join and detach throw, and change nothing, when the object owns no thread. */
    method JoinOrDetach(detach: bool) returns (threw: bool)
      requires world.Valid() && this in world.objects
      modifies world`owner, world.kernel, this
      ensures world.Valid() && world.kernel.next == old(world.kernel.next)
      ensures threw <==> !old(Joinable())
      ensures !Joinable()
      ensures world.kernel.log == if threw then old(world.kernel.log)
                                  else old(world.kernel.log)
                                       + [if detach then Detached(old(impl)) else Joined(old(impl))]
    {
      if impl == 0 {
        return true;
      }
      ghost var e := if detach then Detached(impl) else Joined(impl);
      assert impl in LiveIds(world.kernel.log, world.kernel.next);
      LiveIdsSnoc(world.kernel.log, world.kernel.next, e);
      hide LogValid, LiveIds, Live;
      world.owner := world.owner - {impl};
      var ok := world.kernel.End(impl, detach);
      assert ok;
      impl := 0;
      threw := false;
    }

    /** The destructor: a debug build VERIFYs that no thread is owned, and then std::thread
        calls std::terminate if one is. */
    method Destroy()
      requires world.Valid() && this in world.objects
      modifies world`objects, world`status, world.verify
      ensures world.Valid()
      ensures world.status == if Joinable() then Terminated else old(world.status)
      ensures world.objects == if Joinable() then old(world.objects) else old(world.objects) - {this}
      ensures world.verify.value == (old(world.verify.value) && !(world.debug && Joinable()))
    {
      if world.debug {
        var _ := world.verify.Verify(!Joinable());
      }
      if Joinable() {
        world.status := Terminated;
      } else {
        world.objects := world.objects - {this};
      }
    }
  }

  /** target = thread(f): construct, move-assign, destroy the temporary. With a target that owns
      nothing this cannot terminate the process; otherwise it does. */
  method SpawnInto(target: Thread, world: World)
    requires world.Valid() && target in world.objects && target.world == world
    modifies world, world.kernel, world.verify, target
    ensures world.Valid() && world.objects >= old(world.objects)
    ensures world.status == if old(target.Joinable()) then Terminated else old(world.status)
    ensures world.kernel.next == old(world.kernel.next) + 1
    ensures world.kernel.log == old(world.kernel.log) + [Started(old(world.kernel.next))]
    ensures target.impl == if old(target.Joinable()) then old(target.impl) else old(world.kernel.next)
    ensures world.status.Running? ==> world.objects == old(world.objects)
    ensures world.verify.value == old(world.verify.value)
  {
    hide World.Valid;
    var empty := !target.Joinable();
    var temporary := new Thread.Spawn(world);
    target.MoveAssign(temporary);
    if empty {
      temporary.Destroy();
    }
  }

  /** A vector moves an element to new storage: move construction, then the old destructor. */
  method Relocate(t: Thread, world: World) returns (u: Thread)
    requires world.Valid() && t in world.objects && t.world == world
    modifies world, world.verify, t
    ensures world.Valid() && fresh(u) && u.world == world && u.impl == old(t.impl)
    ensures world.objects == old(world.objects) - {t} + {u}
    ensures world.status == old(world.status) && world.verify.value == old(world.verify.value)
  {
    hide World.Valid;
    u := new Thread.Move(world, t);
    t.Destroy();
  }
}
