/**
 The programs tests/preempt_03_decrement.cc and tests/preempt_02_fifo.cc as a
 concurrent step system. Main creates one thread per entry of a priority table
 and joins them in creation order; every thread checks, loads and stores the
 unguarded global. Each access to the global is one sequentially consistent
 step, and here any enabled step may come next: no scheduler is assumed.
 */
module Program {
  import opened Wrappers

  datatype Policy = Fifo | RoundRobin

  /** One call of the test's run. Thread i expects to read start - i.
      verifiesTable: the run first VERIFYs that the table never rises.
      abortsAtCreate: a failed creation exits at once; otherwise the failure is
      noticed when main comes to join that handle. */
  datatype Config = Config(
    table: seq<int>,
    start: int,
    verifiesTable: bool,
    abortsAtCreate: bool,
    policy: Policy,
    entryFlag: bool)

  /** What a thread does next. Failed: pthread_create returned an error. */
  datatype Body = Check | Load | Store(reg: int) | Done | Failed

  datatype Phase = Working | Finished | Aborted

  datatype State = State(value: int, flag: bool, threads: seq<Body>, joined: nat, phase: Phase)

  datatype Action = Create(ok: bool) | Access(t: nat) | Join | Finish

  predicate NonIncreasing(table: seq<int>) {
    forall i | 0 < i < |table| :: table[i] <= table[i - 1]
  }

  predicate StrictlyDecreasing(table: seq<int>) {
    forall i | 0 < i < |table| :: table[i] < table[i - 1]
  }

  predicate AllPositive(table: seq<int>) {
    forall i | 0 <= i < |table| :: table[i] > 0
  }

  predicate Active(b: Body) {
    b.Check? || b.Load? || b.Store?
  }

  function Init(cfg: Config): State {
    State(cfg.start, cfg.entryFlag && (cfg.verifiesTable ==> NonIncreasing(cfg.table)), [], 0, Working)
  }

  predicate Enabled(cfg: Config, s: State, a: Action) {
    && s.phase.Working?
    && match a
       case Create(_) => |s.threads| < |cfg.table|
       case Access(t) => t < |s.threads| && Active(s.threads[t])
       case Join =>
         && |s.threads| == |cfg.table|
         && s.joined < |s.threads|
         && (s.threads[s.joined].Done? || s.threads[s.joined].Failed?)
       case Finish => |s.threads| == |cfg.table| && s.joined == |cfg.table|
  }

  function Step(cfg: Config, s: State, a: Action): State
    requires Enabled(cfg, s, a)
  {
    match a
    case Create(ok) =>
      s.(flag := s.flag && cfg.table[|s.threads|] > 0,
         threads := s.threads + [if ok then Check else Failed],
         phase := if !ok && cfg.abortsAtCreate then Aborted else Working)
    case Access(t) =>
      (match s.threads[t]
       case Check => s.(flag := s.flag && s.value == cfg.start - t, threads := s.threads[t := Load])
       case Load => s.(threads := s.threads[t := Store(s.value)])
       case Store(reg) => s.(value := reg - 1, threads := s.threads[t := Done]))
    case Join =>
      if s.threads[s.joined].Done? then s.(joined := s.joined + 1) else s.(phase := Aborted)
    case Finish =>
      s.(flag := s.flag && s.value == cfg.start - |cfg.table|, phase := Finished)
  }

  /** The state after a history of actions; None when some action was not enabled. */
  function Exec(cfg: Config, acts: seq<Action>): Option<State> {
    if acts == [] then Some(Init(cfg))
    else
      var last := |acts| - 1;
      match Exec(cfg, acts[..last])
      case None => None
      case Some(s) => if Enabled(cfg, s, acts[last]) then Some(Step(cfg, s, acts[last])) else None
  }

  lemma ExecSnoc(cfg: Config, acts: seq<Action>, a: Action)
    requires Exec(cfg, acts).Some? && Enabled(cfg, Exec(cfg, acts).value, a)
    ensures Exec(cfg, acts + [a]) == Some(Step(cfg, Exec(cfg, acts).value, a))
  {
    assert (acts + [a])[..|acts|] == acts;
  }

  /** The exit code is EXIT_SUCCESS exactly in these states. */
  predicate Succeeds(s: State) {
    s.phase.Finished? && s.flag
  }

  // ---------- The order of the bodies ----------

  /** The threads that accessed the global, in the order of their accesses. */
  function Accesses(acts: seq<Action>): seq<nat> {
    if acts == [] then []
    else
      var before := Accesses(acts[..|acts| - 1]);
      match acts[|acts| - 1]
      case Access(t) => before + [t]
      case _ => before
  }

  /** 0,0,0,1,1,1,...: the bodies one after the other in creation order. */
  function Serial(n: nat): seq<nat> {
    seq(3 * n, i => i / 3)
  }

  ghost predicate FollowsSerial(acc: seq<nat>) {
    forall i | 0 <= i < |acc| :: acc[i] == i / 3
  }

  /** The one state the threads can be in after m accesses in serial order. */
  ghost predicate OnCourse(cfg: Config, s: State, m: nat) {
    var k, r := m / 3, m % 3;
    && k <= |s.threads|
    && (forall i | 0 <= i < k :: s.threads[i] == Done)
    && (forall i | k < i < |s.threads| :: s.threads[i].Check? || s.threads[i].Failed?)
    && (r == 0 && k < |s.threads| ==> s.threads[k].Check? || s.threads[k].Failed?)
    && (r == 1 ==> k < |s.threads| && s.threads[k] == Load)
    && (r == 2 ==> k < |s.threads| && s.threads[k] == Store(cfg.start - k))
    && s.value == cfg.start - k
  }

  /** Main's own part: creation count, joined threads, and what Finished and a failure imply. */
  ghost predicate MainOrder(cfg: Config, s: State) {
    && |s.threads| <= |cfg.table|
    && s.joined <= |s.threads|
    && (forall i | 0 <= i < s.joined :: s.threads[i] == Done)
    && (s.joined > 0 ==> |s.threads| == |cfg.table|)
    && (s.phase.Finished? ==> s.joined == |cfg.table|)
  }

  lemma {:induction false} MainJoinsInOrder(cfg: Config, acts: seq<Action>, s: State)
    requires Exec(cfg, acts) == Some(s)
    ensures MainOrder(cfg, s)
  {
    if acts != [] {
      var last := |acts| - 1;
      var u := Exec(cfg, acts[..last]).value;
      MainJoinsInOrder(cfg, acts[..last], u);
    }
  }

  /** At every moment the flag tells whether the bodies have run in serial order so far. */
  ghost predicate FlagMeaning(cfg: Config, acc: seq<nat>, s: State) {
    && |s.threads| <= |cfg.table|
    && (FollowsSerial(acc) ==> OnCourse(cfg, s, |acc|))
    && (s.flag <==> Init(cfg).flag && AllPositive(cfg.table[..|s.threads|]) && FollowsSerial(acc))
  }

  lemma {:induction false} FlagTracksOrder(cfg: Config, acts: seq<Action>, s: State)
    requires Exec(cfg, acts) == Some(s)
    ensures FlagMeaning(cfg, Accesses(acts), s)
  {
    if acts != [] {
      var last := |acts| - 1;
      var u := Exec(cfg, acts[..last]).value;
      FlagTracksOrder(cfg, acts[..last], u);
      MainJoinsInOrder(cfg, acts[..last], u);
      match acts[last]
      case Create(ok) => CreateKeepsMeaning(cfg, Accesses(acts), u, ok);
      case Access(t) => AccessKeepsMeaning(cfg, Accesses(acts[..last]), u, t);
      case Join =>
      case Finish => FinishKeepsMeaning(cfg, Accesses(acts), u);
    }
  }

  lemma CreateKeepsMeaning(cfg: Config, acc: seq<nat>, u: State, ok: bool)
    requires FlagMeaning(cfg, acc, u) && Enabled(cfg, u, Create(ok))
    ensures FlagMeaning(cfg, acc, Step(cfg, u, Create(ok)))
  {
    var n := |u.threads|;
    assert cfg.table[..n + 1] == cfg.table[..n] + [cfg.table[n]];
    assert AllPositive(cfg.table[..n + 1]) <==> AllPositive(cfg.table[..n]) && cfg.table[n] > 0 by {
      if AllPositive(cfg.table[..n + 1]) {
        assert forall i | 0 <= i < n :: cfg.table[..n][i] == cfg.table[..n + 1][i];
      }
    }
  }

  lemma AccessKeepsMeaning(cfg: Config, acc: seq<nat>, u: State, t: nat)
    requires FlagMeaning(cfg, acc, u) && Enabled(cfg, u, Access(t))
    ensures FlagMeaning(cfg, acc + [t], Step(cfg, u, Access(t)))
  {
    var m := |acc|;
    assert (acc + [t])[m] == t;
    assert forall i | 0 <= i < m :: (acc + [t])[i] == acc[i];
    assert FollowsSerial(acc + [t]) <==> FollowsSerial(acc) && t == m / 3;
  }

  lemma FinishKeepsMeaning(cfg: Config, acc: seq<nat>, u: State)
    requires FlagMeaning(cfg, acc, u) && MainOrder(cfg, u) && Enabled(cfg, u, Finish)
    ensures FlagMeaning(cfg, acc, Step(cfg, u, Finish))
  {
    if FollowsSerial(acc) {
      assert |acc| / 3 >= |cfg.table|;
    }
  }

  /** Detector theorem. A run that finishes leaves the flag set exactly when it was set on
      entry, the table was accepted, and the bodies ran in creation order without overlap. */
  lemma Detector(cfg: Config, acts: seq<Action>, s: State)
    requires Exec(cfg, acts) == Some(s) && s.phase.Finished?
    ensures s.flag <==>
            && cfg.entryFlag
            && (cfg.verifiesTable ==> NonIncreasing(cfg.table))
            && AllPositive(cfg.table)
            && Accesses(acts) == Serial(|cfg.table|)
  {
    MainJoinsInOrder(cfg, acts, s);
    FlagTracksOrder(cfg, acts, s);
    var n, acc := |cfg.table|, Accesses(acts);
    assert cfg.table[..n] == cfg.table;
    if FollowsSerial(acc) {
      assert |acc| / 3 >= n;
      assert |acc| == 3 * n;
      assert acc == Serial(n);
    } else {
      assert acc != Serial(n);
    }
  }

  /** Once every body VERIFY passed, the VERIFY of the final value cannot fail. */
  lemma BodyChecksForceFinalValue(cfg: Config, acts: seq<Action>, s: State)
    requires Exec(cfg, acts) == Some(s)
    requires s.joined == |cfg.table| == |s.threads| && s.flag
    ensures s.value == cfg.start - |cfg.table|
  {
    MainJoinsInOrder(cfg, acts, s);
    FlagTracksOrder(cfg, acts, s);
    assert |Accesses(acts)| / 3 >= |cfg.table|;
  }

  /** A run whose accesses are serial also ends with the expected value. */
  lemma SerialEndsAtTarget(cfg: Config, acts: seq<Action>, s: State)
    requires Exec(cfg, acts) == Some(s) && s.phase.Finished?
    requires Accesses(acts) == Serial(|cfg.table|)
    ensures s.value == cfg.start - |cfg.table|
  {
    FlagTracksOrder(cfg, acts, s);
  }

  // ---------- Failed creations ----------

  /** Which creations succeeded, in order. */
  function Creations(acts: seq<Action>): seq<bool> {
    if acts == [] then []
    else
      var last := |acts| - 1;
      Creations(acts[..last]) + if acts[last].Create? then [acts[last].ok] else []
  }

  lemma {:induction false} FailedCreationsShow(cfg: Config, acts: seq<Action>, s: State)
    requires Exec(cfg, acts) == Some(s)
    ensures |Creations(acts)| == |s.threads|
    ensures forall i | 0 <= i < |s.threads| :: s.threads[i].Failed? <==> !Creations(acts)[i]
  {
    if acts != [] {
      var last := |acts| - 1;
      var u := Exec(cfg, acts[..last]).value;
      FailedCreationsShow(cfg, acts[..last], u);
    }
  }

  /** A process that looks at the error of a creation exits there. */
  lemma ExitsAtFailedCreation(cfg: Config, acts: seq<Action>, s: State, i: nat)
    requires Exec(cfg, acts) == Some(s) && cfg.abortsAtCreate && i < |acts| && acts[i] == Create(false)
    ensures i == |acts| - 1 && s.phase.Aborted?
    decreases |acts|
  {
    var last := |acts| - 1;
    if i < last {
      ExitsAtFailedCreation(cfg, acts[..last], Exec(cfg, acts[..last]).value, i);
      assert false;
    }
  }

  /** A run that gives up does so at the failed creation itself, or, when it looks at the handles
      only to join them, after all creations, at the join of the first handle whose creation
      failed; the threads before it have been joined. */
  lemma AbortMeans(cfg: Config, acts: seq<Action>, s: State)
    requires Exec(cfg, acts) == Some(s) && s.phase.Aborted?
    ensures acts != []
    ensures cfg.abortsAtCreate ==> acts[|acts| - 1] == Create(false) && s.joined == 0
    ensures !cfg.abortsAtCreate ==>
              && acts[|acts| - 1] == Join && |Creations(acts)| == |cfg.table|
              && s.joined < |Creations(acts)| && !Creations(acts)[s.joined]
              && forall i | 0 <= i < s.joined :: Creations(acts)[i] && s.threads[i] == Done
  {
    var last := |acts| - 1;
    var u := Exec(cfg, acts[..last]).value;
    FailedCreationsShow(cfg, acts[..last], u);
    FailedCreationsShow(cfg, acts, s);
    MainJoinsInOrder(cfg, acts[..last], u);
    MainJoinsInOrder(cfg, acts, s);
    if cfg.abortsAtCreate && acts[last].Join? {
      FailuresAbort(cfg, acts[..last], u);
    }
  }

  /** A process that exits at a failed creation never goes on with one. */
  lemma {:induction false} FailuresAbort(cfg: Config, acts: seq<Action>, s: State)
    requires Exec(cfg, acts) == Some(s) && cfg.abortsAtCreate && s.phase.Working?
    ensures forall i | 0 <= i < |s.threads| :: !s.threads[i].Failed?
  {
    if acts != [] {
      var last := |acts| - 1;
      FailuresAbort(cfg, acts[..last], Exec(cfg, acts[..last]).value);
    }
  }

  // ---------- Lost updates ----------

  function CountDone(threads: seq<Body>): nat {
    if threads == [] then 0
    else CountDone(threads[..|threads| - 1]) + (if threads[|threads| - 1].Done? then 1 else 0)
  }

  lemma {:induction false} CountDoneUpdate(threads: seq<Body>, t: nat, b: Body)
    requires t < |threads| && !threads[t].Done?
    ensures CountDone(threads[t := b]) == CountDone(threads) + (if b.Done? then 1 else 0)
  {
    var last := |threads| - 1;
    if t == last {
      assert threads[t := b][..last] == threads[..last];
    } else {
      CountDoneUpdate(threads[..last], t, b);
      assert threads[t := b][..last] == threads[..last][t := b];
    }
  }

  lemma {:induction false} CountDoneAll(threads: seq<Body>)
    requires forall i | 0 <= i < |threads| :: threads[i].Done?
    ensures CountDone(threads) == |threads|
  {
    if threads != [] {
      CountDoneAll(threads[..|threads| - 1]);
    }
  }

  /** The global never falls below start minus the stores made so far, and never rises. */
  ghost predicate Bounded(cfg: Config, s: State) {
    var done := CountDone(s.threads);
    && cfg.start - done <= s.value <= cfg.start
    && (done > 0 ==> s.value < cfg.start)
    && (forall i | 0 <= i < |s.threads| && s.threads[i].Store? ::
          cfg.start - done <= s.threads[i].reg <= cfg.start)
  }

  lemma {:induction false} LostUpdateBound(cfg: Config, acts: seq<Action>, s: State)
    requires Exec(cfg, acts) == Some(s)
    ensures Bounded(cfg, s)
  {
    if acts != [] {
      var last := |acts| - 1;
      var u := Exec(cfg, acts[..last]).value;
      LostUpdateBound(cfg, acts[..last], u);
      match acts[last]
      case Create(_) =>
        assert s.threads[..|s.threads| - 1] == u.threads;
      case Access(t) =>
        CountDoneUpdate(u.threads, t, s.threads[t]);
      case _ =>
    }
  }

  /** Whatever the interleaving, between 1 and N of the N decrements take effect. */
  lemma FinalValueRange(cfg: Config, acts: seq<Action>, s: State)
    requires Exec(cfg, acts) == Some(s) && s.phase.Finished? && |cfg.table| > 0
    ensures cfg.start - |cfg.table| <= s.value <= cfg.start - 1
  {
    MainJoinsInOrder(cfg, acts, s);
    LostUpdateBound(cfg, acts, s);
    CountDoneAll(s.threads);
  }

  /** At least one update is lost: the global, and what every thread is about to store, is ahead
      of start minus the stores made. */
  ghost predicate Lagging(cfg: Config, s: State) {
    var done := CountDone(s.threads);
    && s.value > cfg.start - done
    && (forall i | 0 <= i < |s.threads| && s.threads[i].Store? :: s.threads[i].reg > cfg.start - done)
  }

  lemma StaysLagging(cfg: Config, s: State, a: Action)
    requires Lagging(cfg, s) && Enabled(cfg, s, a)
    ensures Lagging(cfg, Step(cfg, s, a))
  {
    var u := Step(cfg, s, a);
    match a
    case Create(_) =>
      assert u.threads[..|u.threads| - 1] == s.threads;
    case Access(t) =>
      CountDoneUpdate(s.threads, t, u.threads[t]);
    case _ =>
  }
}
