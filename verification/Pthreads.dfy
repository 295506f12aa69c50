/**
 The kernel's view of threads, as a log of what happened to each thread id, and
 base::thread of include/base/threading.h, a copyable record around such an id.
 */
module Pthreads {
  import opened Wrappers
  import opened Program
  import opened Harness

  datatype Event = Started(id: nat) | Joined(id: nat) | Detached(id: nat)

  /** The thread was started and is neither joined nor detached. */
  predicate Live(log: seq<Event>, id: nat) {
    Started(id) in log && Joined(id) !in log && Detached(id) !in log
  }

  function LiveIds(log: seq<Event>, next: nat): set<nat> {
    set id | 1 <= id < next && Live(log, id)
  }

  /** Ids 1, 2, ... are started in turn; nothing happens twice; only a started thread is joined
      or detached, and not both. */
  ghost predicate LogValid(log: seq<Event>, next: nat) {
    && next > 0
    && (forall i, j | 0 <= i < j < |log| :: log[i] != log[j])
    && (forall id: nat :: Started(id) in log <==> 1 <= id < next)
    && (forall id: nat :: Joined(id) in log ==> Started(id) in log && Detached(id) !in log)
    && (forall id: nat :: Detached(id) in log ==> Started(id) in log)
  }

  lemma LogSnoc(log: seq<Event>, next: nat, e: Event)
    requires LogValid(log, next)
    requires if e.Started? then e.id == next else Live(log, e.id)
    ensures LogValid(log + [e], if e.Started? then next + 1 else next)
    ensures forall d :: d in log + [e] <==> d in log || d == e
    ensures forall id: nat ::
              Live(log + [e], id) <==> if id == e.id then e.Started? else Live(log, id)
  {
    assert Started(next) !in log && Joined(next) !in log && Detached(next) !in log;
  }

  lemma LiveIdsSnoc(log: seq<Event>, next: nat, e: Event)
    requires LogValid(log, next)
    requires if e.Started? then e.id == next else Live(log, e.id)
    ensures LogValid(log + [e], if e.Started? then next + 1 else next)
    ensures if e.Started? then LiveIds(log + [e], next + 1) == LiveIds(log, next) + {e.id}
            else e.id in LiveIds(log, next) && LiveIds(log + [e], next) == LiveIds(log, next) - {e.id}
  {
    LogSnoc(log, next, e);
  }

  class Kernel {
    var log: seq<Event>
    var next: nat

    ghost predicate Valid()
      reads this
    {
      LogValid(log, next)
    }

    constructor ()
      ensures Valid() && log == [] && next == 1
    {
      log, next := [], 1;
    }

    /** pthread_create, once it succeeds. */
    method Start() returns (id: nat)
      requires Valid()
      modifies this
      ensures Valid() && id == old(next) && next == id + 1 && log == old(log) + [Started(id)]
      ensures Live(log, id) && !Live(old(log), id)
    {
      LogSnoc(log, next, Started(next));
      id := next;
      log, next := log + [Started(id)], next + 1;
    }

    /** pthread_join or pthread_detach: 0, or an error for a thread that cannot be joined. */
    method End(id: nat, detach: bool) returns (ok: bool)
      requires Valid()
      modifies this
      ensures Valid() && next == old(next) && ok == Live(old(log), id)
      ensures log == if !ok then old(log)
                     else old(log) + [if detach then Detached(id) else Joined(id)]
    {
      ok := Live(log, id);
      if ok {
        var e := if detach then Detached(id) else Joined(id);
        LogSnoc(log, next, e);
        log := log + [e];
      }
    }
  }

  // ---------- base::thread ----------

  /** error: which call failed last, None for an empty message. */
  datatype BaseThread = BaseThread(joinable: bool, id: nat, error: Option<nat>)

  /** The constructor's calls in order: attr_init, setdetachstate, setinheritsched,
      setschedpolicy, setschedparam, pthread_create. */
  const CALLS := 6

  function FirstFailure(errnums: seq<int>): (r: Option<nat>)
    ensures r.None? <==> forall i | 0 <= i < |errnums| :: errnums[i] == 0
    ensures r.Some? ==> r.value < |errnums| && errnums[r.value] != 0
    ensures r.Some? ==> forall i | 0 <= i < r.value :: errnums[i] == 0
  {
    if errnums == [] then None
    else if errnums[0] != 0 then Some(0)
    else
      match FirstFailure(errnums[1..])
      case None => None
      case Some(k) => assert errnums[1..][k] == errnums[k + 1]; Some(k + 1)
  }

  const JOIN_CALL := 6

  /** base::thread(policy, priority, funp), with None for a policy that is not a real-time one;
      errnums[i] is what its i-th pthread call returns. */
  method Construct(kernel: Kernel, verify: VerifyFlag, policy: Option<Policy>, priority: int,
                   hasFunction: bool, errnums: seq<int>)
      returns (t: BaseThread)
    requires kernel.Valid() && |errnums| == CALLS
    modifies kernel, verify
    ensures kernel.Valid()
    ensures t.joinable <==> hasFunction && FirstFailure(errnums) == None
    ensures t.error == if hasFunction then FirstFailure(errnums) else None
    ensures t.joinable ==> t.id == old(kernel.next) && Live(kernel.log, t.id)
    ensures kernel.log == old(kernel.log) + if t.joinable then [Started(t.id)] else []
    ensures verify.value <==>
            old(verify.value) && !(hasFunction && errnums[0] == 0 && policy != None && priority <= 0)
  {
    t := BaseThread(false, 0, None);
    if hasFunction {
      if errnums[0] != 0 {
        return t.(error := Some(0));
      }
      if policy.Some? {
        var _ := verify.Verify(priority > 0);
      }
      for call := 1 to CALLS
        invariant forall i | 0 <= i < call :: errnums[i] == 0
      {
        if errnums[call] != 0 {
          return t.(error := Some(call));
        }
      }
      var id := kernel.Start();
      t := BaseThread(true, id, None);
    }
  }

  /** base::thread::join. It asks the kernel without looking at joinable first. */
  method JoinBase(kernel: Kernel, t: BaseThread) returns (t': BaseThread)
    requires kernel.Valid()
    modifies kernel
    ensures kernel.Valid() && kernel.next == old(kernel.next)
    ensures if Live(old(kernel.log), t.id)
            then kernel.log == old(kernel.log) + [Joined(t.id)] && t' == BaseThread(false, t.id, None)
            else kernel.log == old(kernel.log) && t' == t.(error := Some(JOIN_CALL))
  {
    var ok := kernel.End(t.id, false);
    t' := if ok then t.(joinable := false, error := None) else t.(error := Some(JOIN_CALL));
  }

  function JoinEvents(context: seq<BaseThread>): seq<Event> {
    seq(|context|, i requires 0 <= i < |context| => Joined(context[i].id))
  }

  ghost predicate AllLive(log: seq<Event>, context: seq<BaseThread>) {
    && (forall i | 0 <= i < |context| :: context[i].joinable && Live(log, context[i].id))
    && (forall i, j | 0 <= i < j < |context| :: context[i].id != context[j].id)
  }

  /** The join loop of run in tests/preempt_03_decrement.cc. It joins copies: every kernel
      thread is joined exactly once, in order, every VERIFY holds, and yet the records in
      context keep saying joinable. */
  method JoinCopies(kernel: Kernel, verify: VerifyFlag, context: array<BaseThread>)
    requires kernel.Valid() && AllLive(kernel.log, context[..])
    modifies kernel, verify
    ensures kernel.Valid()
    ensures kernel.log == old(kernel.log) + JoinEvents(context[..])
    ensures forall i | 0 <= i < context.Length :: context[i].joinable && !Live(kernel.log, context[i].id)
    ensures verify.value == old(verify.value)
  {
    ghost var all := context[..];
    for i := 0 to context.Length
      invariant kernel.Valid() && verify.value == old(verify.value)
      invariant kernel.log == old(kernel.log) + JoinEvents(all)[..i]
      invariant forall k | 0 <= k < context.Length ::
                  Live(kernel.log, all[k].id) <==> i <= k
    {
      var c := context[i];
      LogSnoc(kernel.log, kernel.next, Joined(c.id));
      var _ := verify.Verify(c.joinable);
      c := JoinBase(kernel, c);
      assert JoinEvents(all)[..i + 1] == JoinEvents(all)[..i] + [Joined(all[i].id)];
    }
    assert JoinEvents(all)[..context.Length] == JoinEvents(all);
  }
}
