/**
 The programs of module Program on one real-time core under SCHED_FIFO or
 SCHED_RR, after section 2.8.4 (Process Scheduling) of the System Interfaces
 volume of POSIX (IEEE Std 1003.1-2017). Main is not a real-time thread and may
 create or join at any moment.
 */
module Scheduler {
  import opened Wrappers
  import opened Program

  /** The program, the thread on the core, and one thread list per priority. */
  datatype Core = Core(prog: State, running: Option<nat>, lists: map<int, seq<nat>>)

  /** Preempt: the running thread goes to the head of its list. Expire: its quantum is
      over and it goes to the tail. Both name no thread: the lists decide who runs next. */
  datatype Move = Do(a: Action) | Dispatch(p: int) | Preempt(p: int) | Expire

  function ListAt(lists: map<int, seq<nat>>, p: int): seq<nat> {
    if p in lists then lists[p] else []
  }

  function Put(lists: map<int, seq<nat>>, p: int, l: seq<nat>): (r: map<int, seq<nat>>)
    ensures forall q :: ListAt(r, q) == if q == p then l else ListAt(lists, q)
  {
    lists[p := l]
  }

  ghost predicate IsTop(lists: map<int, seq<nat>>, p: int) {
    ListAt(lists, p) != [] && forall q :: ListAt(lists, q) != [] ==> q <= p
  }

  function Boot(cfg: Config): Core {
    Core(Init(cfg), None, map[])
  }

  /** The running thread is a created one and nobody outranks it. */
  ghost predicate MayContinue(cfg: Config, c: Core) {
    && c.running.Some? && c.running.value < |cfg.table|
    && forall q :: ListAt(c.lists, q) != [] ==> q <= cfg.table[c.running.value]
  }

  ghost predicate Allowed(cfg: Config, c: Core, m: Move) {
    && c.prog.phase.Working?
    && match m
       case Do(a) =>
         && Enabled(cfg, c.prog, a)
         && (a.Access? ==> MayContinue(cfg, c) && c.running == Some(a.t))
       case Dispatch(p) => c.running.None? && IsTop(c.lists, p)
       case Preempt(p) =>
         && c.running.Some? && c.running.value < |cfg.table|
         && IsTop(c.lists, p) && p > cfg.table[c.running.value]
       case Expire => cfg.policy.RoundRobin? && MayContinue(cfg, c)
  }

  ghost function Next(cfg: Config, c: Core, m: Move): Core
    requires Allowed(cfg, c, m)
  {
    match m
    case Do(a) =>
      var prog := Step(cfg, c.prog, a);
      (match a
       case Create(true) =>
         var t := |c.prog.threads|;
         var p := cfg.table[t];
         c.(prog := prog, lists := Put(c.lists, p, ListAt(c.lists, p) + [t]))
       case Access(t) =>
         c.(prog := prog, running := if prog.threads[t].Done? then None else c.running)
       case _ => c.(prog := prog))
    case Dispatch(p) =>
      var l := ListAt(c.lists, p);
      c.(running := Some(l[0]), lists := Put(c.lists, p, l[1..]))
    case Preempt(p) =>
      var r := c.running.value;
      var own, l := ListAt(c.lists, cfg.table[r]), ListAt(c.lists, p);
      c.(running := Some(l[0]), lists := Put(Put(c.lists, cfg.table[r], [r] + own), p, l[1..]))
    case Expire =>
      var r := c.running.value;
      var l := ListAt(c.lists, cfg.table[r]) + [r];
      c.(running := Some(l[0]), lists := Put(c.lists, cfg.table[r], l[1..]))
  }

  ghost function Schedule(cfg: Config, moves: seq<Move>): Option<Core> {
    if moves == [] then Some(Boot(cfg))
    else
      var last := |moves| - 1;
      match Schedule(cfg, moves[..last])
      case None => None
      case Some(c) => if Allowed(cfg, c, moves[last]) then Some(Next(cfg, c, moves[last])) else None
  }

  lemma ScheduleSnoc(cfg: Config, moves: seq<Move>, m: Move)
    requires Schedule(cfg, moves).Some? && Allowed(cfg, Schedule(cfg, moves).value, m)
    ensures Schedule(cfg, moves + [m]) == Some(Next(cfg, Schedule(cfg, moves).value, m))
    ensures Project(moves + [m]) == Project(moves) + (if m.Do? then [m.a] else [])
  {
    assert (moves + [m])[..|moves|] == moves;
  }

  // ---------- A schedule is one of the interleavings ----------

  /** What the program did, without the scheduler's own moves. */
  function Project(moves: seq<Move>): seq<Action> {
    if moves == [] then []
    else
      var last := |moves| - 1;
      Project(moves[..last]) + if moves[last].Do? then [moves[last].a] else []
  }

  lemma {:induction false} ScheduleRefinesProgram(cfg: Config, moves: seq<Move>, c: Core)
    requires Schedule(cfg, moves) == Some(c)
    ensures Exec(cfg, Project(moves)) == Some(c.prog)
  {
    if moves != [] {
      var last := |moves| - 1;
      var b := Schedule(cfg, moves[..last]).value;
      ScheduleRefinesProgram(cfg, moves[..last], b);
      if moves[last].Do? {
        ExecSnoc(cfg, Project(moves[..last]), moves[last].a);
      } else {
        assert Project(moves) == Project(moves[..last]);
      }
    }
  }

  /** The scheduler never holds up main: what main can do without it, it can do now. */
  lemma MainIsNeverHeldUp(cfg: Config, moves: seq<Move>, a: Action)
    requires Schedule(cfg, moves).Some? && Exec(cfg, Project(moves) + [a]).Some? && !a.Access?
    ensures Schedule(cfg, moves + [Do(a)]).Some?
  {
    ScheduleRefinesProgram(cfg, moves, Schedule(cfg, moves).value);
    assert (Project(moves) + [a])[..|Project(moves)|] == Project(moves);
    ScheduleSnoc(cfg, moves, Do(a));
  }

  /** Under SCHED_RR a quantum may expire between any two steps of a thread. */
  lemma QuantumMayExpire(cfg: Config, moves: seq<Move>, t: nat)
    requires cfg.policy.RoundRobin? && Schedule(cfg, moves + [Do(Access(t))]).Some?
    ensures Schedule(cfg, moves + [Expire]).Some?
  {
    assert (moves + [Do(Access(t))])[..|moves|] == moves;
    ScheduleSnoc(cfg, moves, Expire);
  }

  // ---------- Where a thread is ----------

  predicate IsActive(cfg: Config, s: State, t: nat, p: int) {
    t < |s.threads| && t < |cfg.table| && Active(s.threads[t]) && cfg.table[t] == p
  }

  function RunningAt(cfg: Config, c: Core, t: nat, p: int): nat {
    if c.running == Some(t) && t < |cfg.table| && cfg.table[t] == p then 1 else 0
  }

  /** Every unfinished thread is in exactly one place: on the core, or once on the list of
      its own priority. Nothing else is on a list or on the core. */
  ghost predicate Placed(cfg: Config, c: Core) {
    && |c.prog.threads| <= |cfg.table|
    && (c.running.Some? ==> c.running.value < |cfg.table|)
    && forall t: nat, p: int :: PlacedOnce(cfg, c, t, p)
  }

  ghost predicate PlacedOnce(cfg: Config, c: Core, t: nat, p: int) {
    multiset(ListAt(c.lists, p))[t] + RunningAt(cfg, c, t, p) == if IsActive(cfg, c.prog, t, p) then 1 else 0
  }

  lemma {:induction false} EveryThreadHasOnePlace(cfg: Config, moves: seq<Move>, c: Core)
    requires Schedule(cfg, moves) == Some(c)
    ensures Placed(cfg, c)
  {
    if moves != [] {
      var last := |moves| - 1;
      var b := Schedule(cfg, moves[..last]).value;
      EveryThreadHasOnePlace(cfg, moves[..last], b);
      ScheduleRefinesProgram(cfg, moves, c);
      MainJoinsInOrder(cfg, Project(moves), c.prog);
      MoveKeepsPlaces(cfg, b, moves[last]);
    }
  }

  lemma MoveKeepsPlaces(cfg: Config, c: Core, m: Move)
    requires Placed(cfg, c) && Allowed(cfg, c, m)
    ensures Placed(cfg, Next(cfg, c, m))
  {
    var d := Next(cfg, c, m);
    assert d.running.Some? ==> d.running.value < |cfg.table| by {
      match m
      case Do(_) =>
      case Dispatch(p) => assert PlacedOnce(cfg, c, ListAt(c.lists, p)[0], p);
      case Preempt(p) => assert PlacedOnce(cfg, c, ListAt(c.lists, p)[0], p);
      case Expire =>
        var p := cfg.table[c.running.value];
        if ListAt(c.lists, p) != [] {
          assert PlacedOnce(cfg, c, ListAt(c.lists, p)[0], p);
        }
    }
    forall t: nat, p: int ensures PlacedOnce(cfg, d, t, p) {
      MoveKeepsPlace(cfg, c, m, t, p);
    }
  }

  lemma HeadAndTail(l: seq<nat>)
    requires l != []
    ensures multiset(l) == multiset{l[0]} + multiset(l[1..])
  {
    assert l == [l[0]] + l[1..];
  }

  lemma MoveKeepsPlace(cfg: Config, c: Core, m: Move, t: nat, p: int)
    requires Placed(cfg, c) && Allowed(cfg, c, m)
    ensures PlacedOnce(cfg, Next(cfg, c, m), t, p)
  {
    assert PlacedOnce(cfg, c, t, p);
    match m
    case Do(a) => DoKeepsPlace(cfg, c, a, t, p);
    case Dispatch(q) => DispatchKeepsPlace(cfg, c, q, t, p);
    case Preempt(q) => PreemptKeepsPlace(cfg, c, q, t, p);
    case Expire => ExpireKeepsPlace(cfg, c, t, p);
  }

  lemma DispatchKeepsPlace(cfg: Config, c: Core, q: int, t: nat, p: int)
    requires Placed(cfg, c) && Allowed(cfg, c, Dispatch(q)) && PlacedOnce(cfg, c, t, p)
    ensures PlacedOnce(cfg, Next(cfg, c, Dispatch(q)), t, p)
  {
    HeadAndTail(ListAt(c.lists, q));
    assert PlacedOnce(cfg, c, ListAt(c.lists, q)[0], q);
  }

  lemma ExpireKeepsPlace(cfg: Config, c: Core, t: nat, p: int)
    requires Placed(cfg, c) && Allowed(cfg, c, Expire) && PlacedOnce(cfg, c, t, p)
    ensures PlacedOnce(cfg, Next(cfg, c, Expire), t, p)
  {
    var r := c.running.value;
    var own := ListAt(c.lists, cfg.table[r]);
    var l := own + [r];
    HeadAndTail(l);
    assert multiset(l) == multiset(own) + multiset{r};
    assert PlacedOnce(cfg, c, l[0], cfg.table[r]);
    assert l[0] < |cfg.table| && cfg.table[l[0]] == cfg.table[r] by {
      assert own != [] ==> own[0] in own;
    }
    var d := Next(cfg, c, Expire);
    assert d.running == Some(l[0]) && d.prog == c.prog;
    if p == cfg.table[r] {
      assert ListAt(d.lists, p) == l[1..];
      assert multiset(l)[t] == multiset(own)[t] + (if t == r then 1 else 0);
      assert multiset(l)[t] == multiset(l[1..])[t] + (if t == l[0] then 1 else 0);
      assert RunningAt(cfg, c, t, p) == if t == r then 1 else 0;
      assert RunningAt(cfg, d, t, p) == if t == l[0] then 1 else 0;
    } else {
      assert ListAt(d.lists, p) == ListAt(c.lists, p);
      assert RunningAt(cfg, c, t, p) == 0;
      assert RunningAt(cfg, d, t, p) == 0;
    }
  }

  lemma DoKeepsPlace(cfg: Config, c: Core, a: Action, t: nat, p: int)
    requires Placed(cfg, c) && Allowed(cfg, c, Do(a)) && PlacedOnce(cfg, c, t, p)
    ensures PlacedOnce(cfg, Next(cfg, c, Do(a)), t, p)
  {
    match a
    case Create(ok) => CreateKeepsPlace(cfg, c, ok, t, p);
    case Access(r) => AccessKeepsPlace(cfg, c, r, t, p);
    case _ =>
  }

  lemma CreateKeepsPlace(cfg: Config, c: Core, ok: bool, t: nat, p: int)
    requires Allowed(cfg, c, Do(Create(ok))) && PlacedOnce(cfg, c, t, p)
    ensures PlacedOnce(cfg, Next(cfg, c, Do(Create(ok))), t, p)
  {
    var d := Next(cfg, c, Do(Create(ok)));
    var n := |c.prog.threads|;
    assert d.running == c.running;
    assert ListAt(d.lists, p) == ListAt(c.lists, p) + if ok && p == cfg.table[n] then [n] else [];
  }

  lemma AccessKeepsPlace(cfg: Config, c: Core, r: nat, t: nat, p: int)
    requires Allowed(cfg, c, Do(Access(r))) && PlacedOnce(cfg, c, t, p)
    ensures PlacedOnce(cfg, Next(cfg, c, Do(Access(r))), t, p)
  {
    var d := Next(cfg, c, Do(Access(r)));
    assert d.lists == c.lists && c.running == Some(r);
    assert forall i | 0 <= i < |c.prog.threads| && i != r :: d.prog.threads[i] == c.prog.threads[i];
  }

  lemma PreemptKeepsPlace(cfg: Config, c: Core, q: int, t: nat, p: int)
    requires Placed(cfg, c) && Allowed(cfg, c, Preempt(q)) && PlacedOnce(cfg, c, t, p)
    ensures PlacedOnce(cfg, Next(cfg, c, Preempt(q)), t, p)
  {
    HeadAndTail(ListAt(c.lists, q));
    assert PlacedOnce(cfg, c, ListAt(c.lists, q)[0], q);
    var r := c.running.value;
    assert multiset([r] + ListAt(c.lists, cfg.table[r])) == multiset{r} + multiset(ListAt(c.lists, cfg.table[r]));
  }

  // ---------- Progress and termination ----------

  lemma {:induction false} MaxOf(ps: set<int>, q: int) returns (p: int)
    requires q in ps
    ensures p in ps && q <= p && forall r | r in ps :: r <= p
  {
    if r :| r in ps && r > q {
      p := MaxOf(ps - {q}, r);
      assert forall r | r in ps :: r == q || r in ps - {q};
    } else {
      p := q;
    }
  }

  lemma TopExists(lists: map<int, seq<nat>>, q: int) returns (p: int)
    requires ListAt(lists, q) != []
    ensures IsTop(lists, p) && q <= p
  {
    var ps := set p | p in lists && lists[p] != [];
    p := MaxOf(ps, q);
    assert forall q :: ListAt(lists, q) != [] ==> q in ps;
  }

  /** No deadlock: until the process has exited, a move other than Expire is possible. */
  lemma SomeMoveIsPossible(cfg: Config, moves: seq<Move>, c: Core) returns (m: Move)
    requires Schedule(cfg, moves) == Some(c) && c.prog.phase.Working?
    ensures Allowed(cfg, c, m) && !m.Expire? && m != Do(Create(false))
  {
    EveryThreadHasOnePlace(cfg, moves, c);
    ScheduleRefinesProgram(cfg, moves, c);
    MainJoinsInOrder(cfg, Project(moves), c.prog);
    var s := c.prog;
    if |s.threads| < |cfg.table| {
      m := Do(Create(true));
    } else if s.joined == |cfg.table| {
      m := Do(Finish);
    } else if !Active(s.threads[s.joined]) {
      m := Do(Join);
    } else if c.running.None? {
      assert PlacedOnce(cfg, c, s.joined, cfg.table[s.joined]);
      var p := TopExists(c.lists, cfg.table[s.joined]);
      m := Dispatch(p);
    } else {
      var r := c.running.value;
      assert PlacedOnce(cfg, c, r, cfg.table[r]);
      if q :| ListAt(c.lists, q) != [] && q > cfg.table[r] {
        var p := TopExists(c.lists, q);
        m := Preempt(p);
      } else {
        m := Do(Access(r));
      }
    }
  }

  function BodyWork(b: Body): nat {
    match b
    case Check => 6
    case Load => 4
    case Store(_) => 2
    case _ => 0
  }

  function Work(threads: seq<Body>): nat {
    if threads == [] then 0
    else Work(threads[..|threads| - 1]) + BodyWork(threads[|threads| - 1])
  }

  lemma {:induction false} WorkUpdate(threads: seq<Body>, t: nat, b: Body)
    requires t < |threads|
    ensures Work(threads[t := b]) == Work(threads) - BodyWork(threads[t]) + BodyWork(b)
  {
    var last := |threads| - 1;
    if t == last {
      assert threads[t := b][..last] == threads[..last];
    } else {
      WorkUpdate(threads[..last], t, b);
      assert threads[t := b][..last] == threads[..last][t := b];
    }
  }

  /** Uncreated threads, remaining accesses, joins and the exit, a core to fill, a preemption due. */
  ghost function Measure(cfg: Config, c: Core): int {
    var s := c.prog;
    if !s.phase.Working? then 0
    else
      9 * (|cfg.table| - |s.threads|)
      + Work(s.threads)
      + (|cfg.table| - s.joined) + 1
      + (if c.running.None? then 1 else 0)
      + (if c.running.Some? && !MayContinue(cfg, c) then 1 else 0)
  }

  lemma MoveLowersMeasure(cfg: Config, c: Core, m: Move)
    requires Allowed(cfg, c, m) && !m.Expire?
    requires Placed(cfg, c) && MainOrder(cfg, c.prog)
    ensures Measure(cfg, Next(cfg, c, m)) < Measure(cfg, c)
  {
    match m
    case Do(a) => DoLowersMeasure(cfg, c, a);
    case Dispatch(p) => DispatchLowersMeasure(cfg, c, p);
    case Preempt(p) => PreemptLowersMeasure(cfg, c, p);
  }

  lemma DoLowersMeasure(cfg: Config, c: Core, a: Action)
    requires Allowed(cfg, c, Do(a)) && Placed(cfg, c) && MainOrder(cfg, c.prog)
    ensures Measure(cfg, Next(cfg, c, Do(a))) < Measure(cfg, c)
  {
    var d := Next(cfg, c, Do(a));
    match a
    case Create(ok) => assert d.prog.threads[..|c.prog.threads|] == c.prog.threads;
    case Access(t) => WorkUpdate(c.prog.threads, t, d.prog.threads[t]);
    case _ =>
  }

  lemma DispatchLowersMeasure(cfg: Config, c: Core, p: int)
    requires Allowed(cfg, c, Dispatch(p)) && Placed(cfg, c)
    ensures Measure(cfg, Next(cfg, c, Dispatch(p))) < Measure(cfg, c)
  {
    var d := Next(cfg, c, Dispatch(p));
    assert PlacedOnce(cfg, c, ListAt(c.lists, p)[0], p);
    assert forall q :: ListAt(d.lists, q) != [] ==> ListAt(c.lists, q) != [];
    assert MayContinue(cfg, d);
  }

  lemma PreemptLowersMeasure(cfg: Config, c: Core, p: int)
    requires Allowed(cfg, c, Preempt(p)) && Placed(cfg, c)
    ensures Measure(cfg, Next(cfg, c, Preempt(p))) < Measure(cfg, c)
  {
    var d := Next(cfg, c, Preempt(p));
    var own := cfg.table[c.running.value];
    assert PlacedOnce(cfg, c, ListAt(c.lists, p)[0], p);
    assert forall q :: ListAt(d.lists, q) != [] ==> ListAt(c.lists, q) != [] || q == own;
    assert MayContinue(cfg, d);
  }

  lemma ReachedStateIsSound(cfg: Config, moves: seq<Move>, c: Core)
    requires Schedule(cfg, moves) == Some(c)
    ensures Placed(cfg, c) && MainOrder(cfg, c.prog) && Measure(cfg, c) >= 0
  {
    EveryThreadHasOnePlace(cfg, moves, c);
    ScheduleRefinesProgram(cfg, moves, c);
    MainJoinsInOrder(cfg, Project(moves), c.prog);
  }

  lemma ExpireKeepsMeasure(cfg: Config, c: Core)
    requires Allowed(cfg, c, Expire) && Placed(cfg, c)
    ensures Measure(cfg, Next(cfg, c, Expire)) == Measure(cfg, c)
  {
    var d, r := Next(cfg, c, Expire), c.running.value;
    var p := cfg.table[r];
    var l := ListAt(c.lists, p) + [r];
    assert cfg.table[l[0]] == p by {
      if l[0] != r {
        assert PlacedOnce(cfg, c, l[0], p);
      }
    }
    assert forall q :: ListAt(d.lists, q) != [] ==> ListAt(c.lists, q) != [] || q == p;
    assert d.running == Some(l[0]) && MayContinue(cfg, d);
  }

  function Expiries(moves: seq<Move>): nat {
    if moves == [] then 0
    else Expiries(moves[..|moves| - 1]) + if moves[|moves| - 1].Expire? then 1 else 0
  }

  lemma MoveCost(cfg: Config, c: Core, m: Move)
    requires Allowed(cfg, c, m) && Placed(cfg, c) && MainOrder(cfg, c.prog)
    ensures Measure(cfg, Next(cfg, c, m)) + (if m.Expire? then 0 else 1) <= Measure(cfg, c)
  {
    if m.Expire? {
      ExpireKeepsMeasure(cfg, c);
    } else {
      MoveLowersMeasure(cfg, c, m);
    }
  }

  /** Under either policy, whatever the table and whenever main creates: no run has more than
      10 N + 2 moves that are not quantum expiries. */
  lemma {:induction false} MovesAreBounded(cfg: Config, moves: seq<Move>, c: Core)
    requires Schedule(cfg, moves) == Some(c)
    ensures |moves| <= |moves| + Measure(cfg, c) <= 10 * |cfg.table| + 2 + Expiries(moves)
  {
    ReachedStateIsSound(cfg, moves, c);
    assert Measure(cfg, Boot(cfg)) == 10 * |cfg.table| + 2;
    hide Measure, Allowed, Next, Placed, MainOrder;
    if moves != [] {
      var last := |moves| - 1;
      var b := Schedule(cfg, moves[..last]).value;
      MovesAreBounded(cfg, moves[..last], b);
      ReachedStateIsSound(cfg, moves[..last], b);
      MoveCost(cfg, b, moves[last]);
    }
  }

  lemma {:induction false} NoExpiriesWithout(cfg: Config, moves: seq<Move>)
    requires Schedule(cfg, moves).Some? && (cfg.policy.Fifo? || cfg.table == [])
    ensures Expiries(moves) == 0
  {
    if moves != [] {
      NoExpiriesWithout(cfg, moves[..|moves| - 1]);
    }
  }

  /** Every SCHED_FIFO run ends. */
  lemma FifoRunsEnd(cfg: Config, moves: seq<Move>, c: Core)
    requires Schedule(cfg, moves) == Some(c) && cfg.policy.Fifo?
    ensures |moves| <= |moves| + Measure(cfg, c) <= 10 * |cfg.table| + 2
  {
    MovesAreBounded(cfg, moves, c);
    NoExpiriesWithout(cfg, moves);
  }

  lemma MoveTowardsExit(cfg: Config, moves: seq<Move>, c: Core) returns (m: Move)
    requires Schedule(cfg, moves) == Some(c) && c.prog.phase.Working?
    ensures Allowed(cfg, c, m) && m != Do(Create(false))
    ensures 0 <= Measure(cfg, Next(cfg, c, m)) < Measure(cfg, c)
    ensures Schedule(cfg, moves + [m]) == Some(Next(cfg, c, m))
  {
    ReachedStateIsSound(cfg, moves, c);
    m := SomeMoveIsPossible(cfg, moves, c);
    MoveLowersMeasure(cfg, c, m);
    ScheduleSnoc(cfg, moves, m);
    ReachedStateIsSound(cfg, moves + [m], Next(cfg, c, m));
  }

  /** Any schedule so far can be driven on until the process exits. */
  lemma {:induction false} DriveToExit(cfg: Config, moves: seq<Move>, c: Core) returns (rest: seq<Move>, d: Core)
    requires Schedule(cfg, moves) == Some(c) && c.prog.phase.Working?
    ensures Schedule(cfg, moves + rest) == Some(d) && !d.prog.phase.Working?
    ensures forall m | m in rest :: m != Do(Create(false))
    decreases Measure(cfg, c)
  {
    hide Schedule, Next, Allowed, Measure;
    var m := MoveTowardsExit(cfg, moves, c);
    d := Next(cfg, c, m);
    rest := [m];
    if d.prog.phase.Working? {
      var more;
      more, d := DriveToExit(cfg, moves + [m], d);
      rest := [m] + more;
      assert moves + rest == moves + [m] + more;
    }
  }
}
