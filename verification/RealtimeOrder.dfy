/**
 When the real-time policies make the unguarded counter safe: exactly for tables
 that never rise under SCHED_FIFO and that strictly fall under SCHED_RR. For every
 other table there is a run in which the bodies overlap and an update is lost.
 */
module RealtimeOrder {
  import opened Wrappers
  import opened Program
  import opened Scheduler

  /** The table condition of tests/preempt_03_decrement.cc for a policy. */
  predicate Fits(cfg: Config) {
    if cfg.policy.Fifo? then NonIncreasing(cfg.table) else StrictlyDecreasing(cfg.table)
  }

  lemma {:induction false} FitsFarther(cfg: Config, i: nat, j: nat)
    requires Fits(cfg) && i < j < |cfg.table|
    ensures cfg.table[j] <= cfg.table[i]
    ensures cfg.policy.RoundRobin? ==> cfg.table[j] < cfg.table[i]
  {
    if i + 1 < j {
      FitsFarther(cfg, i, j - 1);
    }
  }

  /** The threads lo..hi that have priority p, in creation order. */
  function Ids(table: seq<int>, p: int, lo: nat, hi: nat): seq<nat>
    requires hi <= |table|
  {
    if hi <= lo then []
    else Ids(table, p, lo, hi - 1) + (if table[hi - 1] == p then [hi - 1] else [])
  }

  lemma {:induction false} IdsHead(table: seq<int>, p: int, lo: nat, hi: nat)
    requires lo < hi <= |table|
    ensures Ids(table, p, lo, hi) == (if table[lo] == p then [lo] else []) + Ids(table, p, lo + 1, hi)
  {
    if lo + 1 < hi {
      IdsHead(table, p, lo, hi - 1);
    }
  }

  lemma {:induction false} IdsMembers(table: seq<int>, p: int, lo: nat, hi: nat)
    requires hi <= |table|
    ensures Ids(table, p, lo, hi) != [] <==> exists i | lo <= i < hi :: table[i] == p
  {
    if lo < hi {
      IdsMembers(table, p, lo, hi - 1);
    }
  }

  ghost predicate NoFailure(s: State) {
    forall i | 0 <= i < |s.threads| :: !s.threads[i].Failed?
  }

  /** The scheduler holds exactly the threads still to run, each list in creation order, and
      the core holds none of them or the next one. */
  ghost predicate InOrder(cfg: Config, acc: seq<nat>, c: Core) {
    var k, r := |acc| / 3, |acc| % 3;
    && FollowsSerial(acc)
    && |c.prog.threads| <= |cfg.table|
    && OnCourse(cfg, c.prog, |acc|)
    && (r > 0 ==> c.running == Some(k))
    && (c.running.Some? ==> c.running == Some(k) && k < |c.prog.threads|)
    && forall p :: ListAt(c.lists, p)
                   == Ids(cfg.table, p, if c.running.None? then k else k + 1, |c.prog.threads|)
  }

  lemma {:induction false} SerialUnlessFailed(cfg: Config, moves: seq<Move>, c: Core)
    requires Schedule(cfg, moves) == Some(c) && Fits(cfg) && NoFailure(c.prog)
    ensures InOrder(cfg, Accesses(Project(moves)), c)
  {
    if moves != [] {
      var last := |moves| - 1;
      var b := Schedule(cfg, moves[..last]).value;
      FailuresRemain(cfg, b, moves[last]);
      SerialUnlessFailed(cfg, moves[..last], b);
      ReachedStateIsSound(cfg, moves, c);
      ScheduleRefinesProgram(cfg, moves, c);
      FlagTracksOrder(cfg, Project(moves), c.prog);
      ProjectedAccesses(moves);
      MoveKeepsOrder(cfg, Accesses(Project(moves[..last])), b, moves[last]);
    }
  }

  lemma FailuresRemain(cfg: Config, c: Core, m: Move)
    requires Allowed(cfg, c, m)
    ensures !NoFailure(c.prog) || m == Do(Create(false)) ==> !NoFailure(Next(cfg, c, m).prog)
  {
    var s, t := c.prog, |c.prog.threads|;
    var s' := Next(cfg, c, m).prog;
    assert m == Do(Create(false)) ==> t < |s'.threads| && s'.threads[t] == Failed;
    assert forall i | 0 <= i < t :: s.threads[i].Failed? ==> s'.threads[i].Failed?;
  }

  lemma ProjectedAccesses(moves: seq<Move>)
    requires moves != []
    ensures var last := |moves| - 1;
      Accesses(Project(moves)) == Accesses(Project(moves[..last]))
      + if moves[last].Do? && moves[last].a.Access? then [moves[last].a.t] else []
  {
    var last := |moves| - 1;
    var before := Project(moves[..last]);
    if moves[last].Do? {
      assert (before + [moves[last].a])[..|before|] == before;
    } else {
      assert Project(moves) == before;
    }
  }

  function AccessOf(m: Move): seq<nat> {
    if m.Do? && m.a.Access? then [m.a.t] else []
  }

  lemma MoveKeepsOrder(cfg: Config, acc: seq<nat>, c: Core, m: Move)
    requires Fits(cfg) && InOrder(cfg, acc, c) && Allowed(cfg, c, m) && m != Do(Create(false))
    requires |Next(cfg, c, m).prog.threads| <= |cfg.table|
    requires FollowsSerial(acc + AccessOf(m)) ==>
               OnCourse(cfg, Next(cfg, c, m).prog, |acc + AccessOf(m)|)
    ensures InOrder(cfg, acc + AccessOf(m), Next(cfg, c, m))
  {
    assert AccessOf(m) == [] ==> acc + AccessOf(m) == acc;
    assert FollowsSerial(acc);
    hide InOrder, OnCourse, Next;
    match m
    case Do(a) =>
      if a.Access? {
        AccessInOrder(cfg, acc, c, a.t);
      } else {
        MainInOrder(cfg, acc, c, a);
      }
    case Dispatch(p) => DispatchIsNext(cfg, acc, c, p);
    case Preempt(p) => NothingOutranks(cfg, acc, c, p);
    case Expire => ExpireChangesNothing(cfg, acc, c);
  }

  lemma MainInOrder(cfg: Config, acc: seq<nat>, c: Core, a: Action)
    requires InOrder(cfg, acc, c) && Allowed(cfg, c, Do(a)) && !a.Access? && a != Create(false)
    requires OnCourse(cfg, Next(cfg, c, Do(a)).prog, |acc|)
    requires |Next(cfg, c, Do(a)).prog.threads| <= |cfg.table|
    ensures InOrder(cfg, acc, Next(cfg, c, Do(a)))
  {
    var d := Next(cfg, c, Do(a));
    assert d.running == c.running;
    assert !a.Create? ==> d.lists == c.lists && d.prog.threads == c.prog.threads;
  }

  lemma AccessInOrder(cfg: Config, acc: seq<nat>, c: Core, t: nat)
    requires InOrder(cfg, acc, c) && Allowed(cfg, c, Do(Access(t)))
    requires FollowsSerial(acc + [t]) ==> OnCourse(cfg, Next(cfg, c, Do(Access(t))).prog, |acc| + 1)
    ensures InOrder(cfg, acc + [t], Next(cfg, c, Do(Access(t))))
  {
    var k, acc' := |acc| / 3, acc + [t];
    assert t == k;
    assert FollowsSerial(acc') by {
      assert forall i | 0 <= i < |acc| :: acc'[i] == acc[i];
    }
    var d := Next(cfg, c, Do(Access(t)));
    assert d.lists == c.lists && |d.prog.threads| == |c.prog.threads|;
    assert d.prog.threads[t].Done? <==> |acc| % 3 == 2;
    assert |acc'| / 3 == if |acc| % 3 == 2 then k + 1 else k;
  }

  lemma NothingOutranks(cfg: Config, acc: seq<nat>, c: Core, p: int)
    requires Fits(cfg) && InOrder(cfg, acc, c)
    ensures !Allowed(cfg, c, Preempt(p))
  {
    var k, n := |acc| / 3, |c.prog.threads|;
    if c.running.Some? && ListAt(c.lists, p) != [] {
      IdsMembers(cfg.table, p, k + 1, n);
      var j :| k + 1 <= j < n && cfg.table[j] == p;
      FitsFarther(cfg, k, j);
    }
  }

  lemma ExpireChangesNothing(cfg: Config, acc: seq<nat>, c: Core)
    requires Fits(cfg) && InOrder(cfg, acc, c) && Allowed(cfg, c, Expire)
    ensures InOrder(cfg, acc, Next(cfg, c, Expire))
  {
    var k, n := |acc| / 3, |c.prog.threads|;
    var p := cfg.table[k];
    IdsMembers(cfg.table, p, k + 1, n);
    forall j | k + 1 <= j < n ensures cfg.table[j] != p {
      FitsFarther(cfg, k, j);
    }
    assert ListAt(c.lists, p) == [];
    var d := Next(cfg, c, Expire);
    assert ListAt(c.lists, p) + [k] == [k];
    assert d.running == Some(k) && d.prog == c.prog;
    assert forall q :: ListAt(d.lists, q) == ListAt(c.lists, q);
  }

  lemma TopIsNext(cfg: Config, acc: seq<nat>, c: Core, p: int)
    requires Fits(cfg) && InOrder(cfg, acc, c) && Allowed(cfg, c, Dispatch(p))
    ensures var k := |acc| / 3;
      && k < |c.prog.threads| && p == cfg.table[k]
      && ListAt(c.lists, p) == [k] + Ids(cfg.table, p, k + 1, |c.prog.threads|)
  {
    var k, n := |acc| / 3, |c.prog.threads|;
    assert n <= |cfg.table| && forall q :: ListAt(c.lists, q) == Ids(cfg.table, q, k, n);
    assert IsTop(c.lists, p);
    hide InOrder, Allowed, Fits, Ids, ListAt;
    IdsMembers(cfg.table, p, k, n);
    var j :| k <= j < n && cfg.table[j] == p;
    if k < j {
      FitsFarther(cfg, k, j);
    }
    IdsMembers(cfg.table, cfg.table[k], k, n);
    assert ListAt(c.lists, cfg.table[k]) != [];
    IdsHead(cfg.table, p, k, n);
  }

  lemma DispatchIsNext(cfg: Config, acc: seq<nat>, c: Core, p: int)
    requires Fits(cfg) && InOrder(cfg, acc, c) && Allowed(cfg, c, Dispatch(p))
    ensures InOrder(cfg, acc, Next(cfg, c, Dispatch(p)))
  {
    var k, n := |acc| / 3, |c.prog.threads|;
    TopIsNext(cfg, acc, c, p);
    var d := Next(cfg, c, Dispatch(p));
    assert d.running == Some(k) && d.prog == c.prog;
    forall q ensures ListAt(d.lists, q) == Ids(cfg.table, q, k + 1, n) {
      if q != p {
        IdsHead(cfg.table, q, k, n);
        assert ListAt(d.lists, q) == ListAt(c.lists, q);
      }
    }
  }

  lemma FinishedWithoutFailure(cfg: Config, moves: seq<Move>, c: Core)
    requires Schedule(cfg, moves) == Some(c) && c.prog.phase.Finished?
    ensures NoFailure(c.prog)
  {
    ReachedStateIsSound(cfg, moves, c);
  }

  /** The finished runs of a fitting table are all alike: bodies in creation order without
      overlap, every body VERIFY true, and the expected final value. */
  lemma FittingTableRunsSerially(cfg: Config, moves: seq<Move>, c: Core)
    requires Schedule(cfg, moves) == Some(c) && c.prog.phase.Finished? && Fits(cfg)
    ensures Accesses(Project(moves)) == Serial(|cfg.table|)
    ensures c.prog.value == cfg.start - |cfg.table|
    ensures c.prog.flag <==> cfg.entryFlag && AllPositive(cfg.table)
  {
    FinishedWithoutFailure(cfg, moves, c);
    SerialUnlessFailed(cfg, moves, c);
    ReachedStateIsSound(cfg, moves, c);
    ScheduleRefinesProgram(cfg, moves, c);
    var n, acc := |cfg.table|, Accesses(Project(moves));
    assert |acc| / 3 >= n;
    assert acc == Serial(n);
    SerialEndsAtTarget(cfg, Project(moves), c.prog);
    Detector(cfg, Project(moves), c.prog);
    assert NonIncreasing(cfg.table);
  }

  // ---------- A table that does not fit has a failing run ----------

  /** No creation fails in this schedule. */
  predicate AllCreated(moves: seq<Move>) {
    forall i | 0 <= i < |moves| :: moves[i] != Do(Create(false))
  }

  lemma {:induction false} AllCreatedNeverAborts(cfg: Config, moves: seq<Move>, c: Core)
    requires Schedule(cfg, moves) == Some(c) && AllCreated(moves)
    ensures NoFailure(c.prog) && !c.prog.phase.Aborted?
  {
    if moves != [] {
      var last := |moves| - 1;
      var b := Schedule(cfg, moves[..last]).value;
      AllCreatedNeverAborts(cfg, moves[..last], b);
      CreatedMoveNeverAborts(cfg, b, moves[last]);
    }
  }

  lemma CreatedMoveNeverAborts(cfg: Config, c: Core, m: Move)
    requires Allowed(cfg, c, m) && m != Do(Create(false)) && NoFailure(c.prog)
    ensures NoFailure(Next(cfg, c, m).prog) && !Next(cfg, c, m).prog.phase.Aborted?
  {
  }

  ghost predicate Reaches(cfg: Config, moves: seq<Move>, c: Core) {
    Schedule(cfg, moves) == Some(c) && c.prog.phase.Working? && AllCreated(moves)
  }

  lemma Then(cfg: Config, moves: seq<Move>, c: Core, m: Move) returns (moves': seq<Move>, d: Core)
    requires Reaches(cfg, moves, c) && Allowed(cfg, c, m)
    requires m != Do(Create(false)) && (m.Do? ==> m.a != Finish && m.a != Join)
    ensures moves' == moves + [m] && d == Next(cfg, c, m) && Reaches(cfg, moves', d)
    ensures Accesses(Project(moves')) == Accesses(Project(moves)) + AccessOf(m)
  {
    ScheduleSnoc(cfg, moves, m);
    ProjectedAccesses(moves + [m]);
    assert (moves + [m])[..|moves|] == moves;
    moves', d := moves + [m], Next(cfg, c, m);
  }

  ghost predicate Idle(c: Core) {
    c.running.None? && forall p :: ListAt(c.lists, p) == []
  }

  /** The core is idle; main creates one more thread and it is dispatched. */
  lemma Launch(cfg: Config, moves: seq<Move>, c: Core) returns (moves': seq<Move>, d: Core)
    requires Reaches(cfg, moves, c) && Idle(c) && |c.prog.threads| < |cfg.table|
    ensures Reaches(cfg, moves', d)
    ensures d.prog.threads == c.prog.threads + [Check] && d.prog.value == c.prog.value
    ensures d.running == Some(|c.prog.threads|) && forall p :: ListAt(d.lists, p) == []
    ensures Accesses(Project(moves')) == Accesses(Project(moves))
  {
    moves', d := Then(cfg, moves, c, Do(Create(true)));
    moves', d := Then(cfg, moves', d, Dispatch(cfg.table[|c.prog.threads|]));
  }

  /** The thread on the core makes its next access. */
  lemma AccessOnCore(cfg: Config, moves: seq<Move>, c: Core, t: nat) returns (moves': seq<Move>, d: Core)
    requires Reaches(cfg, moves, c) && c.running == Some(t) && MayContinue(cfg, c)
    requires t < |c.prog.threads| && Active(c.prog.threads[t])
    ensures Reaches(cfg, moves', d) && d.prog == Step(cfg, c.prog, Access(t)) && d.lists == c.lists
    ensures d.running == if d.prog.threads[t].Done? then None else Some(t)
    ensures d.running.Some? ==> MayContinue(cfg, d)
    ensures Accesses(Project(moves')) == Accesses(Project(moves)) + [t]
  {
    moves', d := Then(cfg, moves, c, Do(Access(t)));
  }

  /** The thread on the core runs from its first access to its end. */
  lemma RunBody(cfg: Config, moves: seq<Move>, c: Core, t: nat) returns (moves': seq<Move>, d: Core)
    requires Reaches(cfg, moves, c) && c.running == Some(t) && MayContinue(cfg, c)
    requires t < |c.prog.threads| && c.prog.threads[t] == Check
    ensures Reaches(cfg, moves', d) && d.running.None? && d.lists == c.lists
    ensures d.prog.threads == c.prog.threads[t := Done] && d.prog.value == c.prog.value - 1
    ensures Accesses(Project(moves')) == Accesses(Project(moves)) + [t, t, t]
  {
    hide Reaches, Schedule, Accesses, Project, MayContinue;
    moves', d := AccessOnCore(cfg, moves, c, t);
    moves', d := AccessOnCore(cfg, moves', d, t);
    moves', d := AccessOnCore(cfg, moves', d, t);
  }

  /** Main creates each of the first n threads only after the one before has ended. */
  lemma {:induction false} OneByOne(cfg: Config, n: nat) returns (moves: seq<Move>, c: Core)
    requires n <= |cfg.table|
    ensures Reaches(cfg, moves, c) && Idle(c) && |c.prog.threads| == n
    ensures (forall t | 0 <= t < n :: c.prog.threads[t] == Done) && c.prog.value == cfg.start - n
    ensures |Accesses(Project(moves))| == 3 * n
  {
    if n == 0 {
      moves, c := [], Boot(cfg);
    } else {
      moves, c := OneByOne(cfg, n - 1);
      moves, c := Launch(cfg, moves, c);
      moves, c := RunBody(cfg, moves, c, n - 1);
    }
  }

  /** The table does not fit between i and i + 1: a rise or, under SCHED_RR, an equality. */
  predicate Misfit(cfg: Config, i: nat) {
    && i + 1 < |cfg.table|
    && (cfg.table[i] < cfg.table[i + 1]
        || (cfg.policy.RoundRobin? && cfg.table[i] == cfg.table[i + 1]))
  }

  lemma MisfitExists(cfg: Config) returns (i: nat)
    requires !Fits(cfg)
    ensures Misfit(cfg, i)
  {
    var j :| 0 < j < |cfg.table| &&
             (cfg.table[j - 1] < cfg.table[j]
              || (cfg.policy.RoundRobin? && cfg.table[j - 1] == cfg.table[j]));
    i := j - 1;
  }

  /** Of the lists only the one of t's priority is not empty, and it holds t alone. */
  ghost predicate Alone(cfg: Config, lists: map<int, seq<nat>>, t: nat)
    requires t < |cfg.table|
  {
    forall q :: ListAt(lists, q) == if q == cfg.table[t] then [t] else []
  }

  /** Thread i is on the core and i + 1 alone on a list: i loses the core to i + 1. */
  lemma Overtake(cfg: Config, moves: seq<Move>, c: Core, i: nat) returns (moves': seq<Move>, d: Core)
    requires Misfit(cfg, i)
    requires Reaches(cfg, moves, c) && c.running == Some(i) && Alone(cfg, c.lists, i + 1)
    ensures Reaches(cfg, moves', d) && d.prog == c.prog
    ensures d.running == Some(i + 1) && MayContinue(cfg, d) && Alone(cfg, d.lists, i)
    ensures Accesses(Project(moves')) == Accesses(Project(moves))
  {
    var p := cfg.table[i + 1];
    if cfg.table[i] < p {
      moves', d := Then(cfg, moves, c, Preempt(p));
    } else {
      moves', d := Then(cfg, moves, c, Expire);
    }
  }

  /** The core is idle and thread t alone on a list: t is dispatched. */
  lemma Resume(cfg: Config, moves: seq<Move>, c: Core, t: nat) returns (moves': seq<Move>, d: Core)
    requires t < |cfg.table| && Reaches(cfg, moves, c) && c.running.None? && Alone(cfg, c.lists, t)
    ensures Reaches(cfg, moves', d) && d.prog == c.prog
    ensures d.running == Some(t) && MayContinue(cfg, d)
    ensures Accesses(Project(moves')) == Accesses(Project(moves))
  {
    moves', d := Then(cfg, moves, c, Dispatch(cfg.table[t]));
  }

  /** Main creates one more thread while another one is on the core. */
  lemma CreateBehind(cfg: Config, moves: seq<Move>, c: Core) returns (moves': seq<Move>, d: Core)
    requires Reaches(cfg, moves, c) && c.running.Some? && forall p :: ListAt(c.lists, p) == []
    requires |c.prog.threads| < |cfg.table|
    ensures Reaches(cfg, moves', d) && d.running == c.running && d.prog.value == c.prog.value
    ensures d.prog.threads == c.prog.threads + [Check] && Alone(cfg, d.lists, |c.prog.threads|)
    ensures Accesses(Project(moves')) == Accesses(Project(moves))
  {
    moves', d := Then(cfg, moves, c, Do(Create(true)));
  }

  /** Threads 0..i-1 have ended, thread i has loaded the global and is about to store, and i + 1
      is alone on a list. */
  lemma LoadedThenOutranked(cfg: Config, i: nat) returns (moves: seq<Move>, c: Core)
    requires i + 1 < |cfg.table|
    ensures Reaches(cfg, moves, c) && c.running == Some(i) && Alone(cfg, c.lists, i + 1)
    ensures |c.prog.threads| == i + 2 && forall t | 0 <= t < i :: c.prog.threads[t] == Done
    ensures c.prog.threads[i] == Store(cfg.start - i) && c.prog.threads[i + 1] == Check
    ensures c.prog.value == cfg.start - i && |Accesses(Project(moves))| == 3 * i + 2
  {
    moves, c := OneByOne(cfg, i);
    moves, c := Launch(cfg, moves, c);
    assert MayContinue(cfg, c);
    hide Reaches, Schedule, Accesses, Project, MayContinue, Alone;
    moves, c := AccessOnCore(cfg, moves, c, i);
    moves, c := AccessOnCore(cfg, moves, c, i);
    moves, c := CreateBehind(cfg, moves, c);
  }

  /** Thread i + 1 runs as a whole between the load and the store of thread i, and its update is
      lost. */
  lemma OvertakingRun(cfg: Config, i: nat) returns (moves: seq<Move>, c: Core)
    requires Misfit(cfg, i)
    ensures Reaches(cfg, moves, c) && |c.prog.threads| == i + 2
    ensures (forall t | 0 <= t < i + 2 :: c.prog.threads[t] == Done) && c.prog.value == cfg.start - i - 1
    ensures |Accesses(Project(moves))| > 3 * i + 2 && Accesses(Project(moves))[3 * i + 2] == i + 1
  {
    hide Reaches, Schedule, Accesses, Project, MayContinue, Alone;
    moves, c := LoadedThenOutranked(cfg, i);
    moves, c := Overtake(cfg, moves, c, i);
    moves, c := RunBody(cfg, moves, c, i + 1);
    moves, c := Resume(cfg, moves, c, i);
    moves, c := AccessOnCore(cfg, moves, c, i);
  }

  lemma {:induction false} AccessesGrow(moves: seq<Move>, rest: seq<Move>)
    ensures Accesses(Project(moves)) <= Accesses(Project(moves + rest))
  {
    if rest == [] {
      assert moves + rest == moves;
    } else {
      var last := |rest| - 1;
      AccessesGrow(moves, rest[..last]);
      ProjectedAccesses(moves + rest);
      assert (moves + rest)[..|moves + rest| - 1] == moves + rest[..last];
    }
  }

  lemma MoveStaysLagging(cfg: Config, c: Core, m: Move)
    requires Lagging(cfg, c.prog) && Allowed(cfg, c, m)
    ensures Lagging(cfg, Next(cfg, c, m).prog)
  {
    if m.Do? {
      StaysLagging(cfg, c.prog, m.a);
    }
  }

  lemma {:induction false} LostUpdateIsNeverMadeUp(cfg: Config, moves: seq<Move>, c: Core, rest: seq<Move>, d: Core)
    requires Schedule(cfg, moves) == Some(c) && Lagging(cfg, c.prog)
    requires Schedule(cfg, moves + rest) == Some(d)
    ensures Lagging(cfg, d.prog)
    decreases |rest|
  {
    hide Lagging, Allowed, Next;
    if rest == [] {
      assert moves + rest == moves;
    } else {
      var last := |rest| - 1;
      assert (moves + rest)[..|moves| + last] == moves + rest[..last];
      var b := Schedule(cfg, moves + rest[..last]).value;
      LostUpdateIsNeverMadeUp(cfg, moves, c, rest[..last], b);
      MoveStaysLagging(cfg, b, rest[last]);
    }
  }

  /** A rise (or, under SCHED_RR, an equality) between two neighbours in the table admits a
      finished run in which every creation succeeds and yet the order is broken, the counter
      ends too high and the flag is cleared. */
  lemma MisfitHasFailingRun(cfg: Config, i: nat) returns (moves: seq<Move>, c: Core)
    requires Misfit(cfg, i)
    ensures Schedule(cfg, moves) == Some(c) && c.prog.phase.Finished? && AllCreated(moves)
    ensures Accesses(Project(moves)) != Serial(|cfg.table|)
    ensures c.prog.value > cfg.start - |cfg.table|
    ensures !c.prog.flag
  {
    var start, b := OvertakingRun(cfg, i);
    CountDoneAll(b.prog.threads);
    var rest;
    rest, c := DriveToExit(cfg, start, b);
    moves := start + rest;
    assert forall j | 0 <= j < |rest| :: rest[j] in rest;
    AccessesGrow(start, rest);
    AllCreatedNeverAborts(cfg, moves, c);
    LostUpdateIsNeverMadeUp(cfg, start, b, rest, c);
    ReachedStateIsSound(cfg, moves, c);
    CountDoneAll(c.prog.threads);
    ScheduleRefinesProgram(cfg, moves, c);
    Detector(cfg, Project(moves), c.prog);
  }

  /** Whatever the table, some run finishes with every creation successful. */
  lemma SomeRunFinishes(cfg: Config) returns (moves: seq<Move>, c: Core)
    ensures Schedule(cfg, moves) == Some(c) && c.prog.phase.Finished? && AllCreated(moves)
  {
    moves, c := DriveToExit(cfg, [], Boot(cfg));
    assert [] + moves == moves;
    assert forall j | 0 <= j < |moves| :: moves[j] in moves;
    AllCreatedNeverAborts(cfg, moves, c);
  }

  // ---------- Under SCHED_RR a run may go on for ever ----------

  /** The first thread stays on the core while its quantum expires n times. */
  lemma {:induction false} ExpireAgain(cfg: Config, n: nat) returns (moves: seq<Move>, c: Core)
    requires cfg.policy.RoundRobin? && cfg.table != []
    ensures Reaches(cfg, moves, c) && |moves| >= n
    ensures c.running == Some(0) && forall p :: ListAt(c.lists, p) == []
  {
    if n == 0 {
      moves, c := Launch(cfg, [], Boot(cfg));
    } else {
      var before, b := ExpireAgain(cfg, n - 1);
      moves, c := Then(cfg, before, b, Expire);
    }
  }

  ghost predicate BoundedBy(cfg: Config, bound: nat) {
    forall moves :: Schedule(cfg, moves).Some? ==> |moves| <= bound
  }

  /** The length of the runs is bounded exactly under SCHED_FIFO or without threads. */
  lemma RunsAreBoundedExactlyWhen(cfg: Config)
    ensures (exists bound: nat :: BoundedBy(cfg, bound)) <==> cfg.policy.Fifo? || cfg.table == []
  {
    if cfg.policy.Fifo? || cfg.table == [] {
      forall moves | Schedule(cfg, moves).Some? ensures |moves| <= 10 * |cfg.table| + 2 {
        MovesAreBounded(cfg, moves, Schedule(cfg, moves).value);
        NoExpiriesWithout(cfg, moves);
      }
      assert BoundedBy(cfg, 10 * |cfg.table| + 2);
    } else {
      forall bound: nat ensures !BoundedBy(cfg, bound) {
        var moves, c := ExpireAgain(cfg, bound + 1);
      }
    }
  }

  // ---------- The main results ----------

  /** A finished run in which the bodies ran in creation order without overlap, each VERIFY
      of a body holding, with the expected final value. */
  ghost predicate Correct(cfg: Config, moves: seq<Move>, c: Core) {
    Accesses(Project(moves)) == Serial(|cfg.table|) && c.prog.value == cfg.start - |cfg.table|
  }

  /** The main result, for SCHED_FIFO and SCHED_RR, any table and any timing of main: every
      finished run is correct if and only if the table fits the policy. */
  lemma CorrectExactlyWhenTableFits(cfg: Config)
    ensures (forall moves, c :: Schedule(cfg, moves) == Some(c) && c.prog.phase.Finished?
                                ==> Correct(cfg, moves, c))
            <==> Fits(cfg)
  {
    if Fits(cfg) {
      forall moves, c | Schedule(cfg, moves) == Some(c) && c.prog.phase.Finished?
        ensures Correct(cfg, moves, c)
      {
        FittingTableRunsSerially(cfg, moves, c);
      }
    } else {
      var i := MisfitExists(cfg);
      var moves, c := MisfitHasFailingRun(cfg, i);
      assert !Correct(cfg, moves, c);
    }
  }

  /** The same result for the counter alone: every finished run ends at the expected value if and
      only if the table fits. */
  lemma CounterExactlyWhenTableFits(cfg: Config)
    ensures (forall moves, c :: Schedule(cfg, moves) == Some(c) && c.prog.phase.Finished?
                                ==> c.prog.value == cfg.start - |cfg.table|)
            <==> Fits(cfg)
  {
    if Fits(cfg) {
      forall moves, c | Schedule(cfg, moves) == Some(c) && c.prog.phase.Finished?
        ensures c.prog.value == cfg.start - |cfg.table|
      {
        FittingTableRunsSerially(cfg, moves, c);
      }
    } else {
      var i := MisfitExists(cfg);
      var moves, c := MisfitHasFailingRun(cfg, i);
    }
  }

  /** The same result seen through the exit code, which also depends on the entry flag and on
      positive priorities. Checking the table first makes no difference: under SCHED_RR a table
      with equal neighbours passes that check and still has a failing run. */
  lemma ExitCodeExactlyWhenTableFits(cfg: Config)
    ensures (forall moves, c :: Schedule(cfg, moves) == Some(c) && c.prog.phase.Finished?
                                ==> Succeeds(c.prog))
            <==> cfg.entryFlag && AllPositive(cfg.table) && Fits(cfg)
  {
    if Fits(cfg) {
      forall moves, c | Schedule(cfg, moves) == Some(c) && c.prog.phase.Finished?
        ensures Succeeds(c.prog) <==> cfg.entryFlag && AllPositive(cfg.table)
      {
        FittingTableRunsSerially(cfg, moves, c);
      }
      var moves, c := SomeRunFinishes(cfg);
      assert Succeeds(c.prog) <==> cfg.entryFlag && AllPositive(cfg.table);
    } else {
      var i := MisfitExists(cfg);
      var moves, c := MisfitHasFailingRun(cfg, i);
    }
  }
}
