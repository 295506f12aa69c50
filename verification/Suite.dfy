/**
 The two test processes as a whole: the runs their main functions make, one
 after the other, on the one sticky verify flag that decides the exit code.
 */
module Suite {
  import opened Wrappers
  import opened Program
  import opened Scheduler
  import opened RealtimeOrder

  datatype ExitCode = ExitSuccess | ExitFailure

  /** One block of main in tests/preempt_03_decrement.cc. */
  datatype Test = Test(policy: Policy, table: seq<int>)

  /** run<Policy, N> starts the global at N, checks its table and exits when a creation fails. */
  function Run03(test: Test, flag: bool): Config {
    Config(test.table, |test.table|, true, true, test.policy, flag)
  }

  /** tests/preempt_02_fifo.cc: ten threads of priority 1, first expecting 9; a failed
      creation is noticed only by the join loop. */
  function Run02(flag: bool): Config {
    Config(seq(10, _ => 1), 9, false, false, Fifo, flag)
  }

  const TESTS_03 := [
    Test(Fifo, [1, 1, 1]),
    Test(Fifo, [10, 10, 10]),
    Test(Fifo, [30, 20, 10]),
    Test(Fifo, [30, 29, 28, 20, 19, 18]),
    Test(RoundRobin, [30, 20, 10]),
    Test(RoundRobin, [30, 29, 28, 27, 26, 25])
  ]

  /** The exit code of the process when its runs take the given schedules; None when these
      are not schedules of a process that has exited. */
  ghost function ExitOf(tests: seq<Test>, runs: seq<seq<Move>>, flag: bool): Option<ExitCode> {
    if tests == [] then
      if runs == [] then Some(if flag then ExitSuccess else ExitFailure) else None
    else if runs == [] then None
    else
      match Schedule(Run03(tests[0], flag), runs[0])
      case None => None
      case Some(c) =>
        match c.prog.phase
        case Working => None
        case Aborted => if |runs| == 1 then Some(ExitFailure) else None
        case Finished => ExitOf(tests[1..], runs[1..], c.prog.flag)
  }

  predicate Acceptable(test: Test) {
    NonIncreasing(test.table) && AllPositive(test.table)
  }

  /** EXIT_SUCCESS means that no run went wrong anywhere, and nothing else. */
  lemma {:induction false} ExitSuccessMeans(tests: seq<Test>, runs: seq<seq<Move>>, flag: bool, code: ExitCode)
    requires ExitOf(tests, runs, flag) == Some(code)
    ensures code == ExitSuccess <==>
            && flag
            && |runs| == |tests|
            && forall i | 0 <= i < |tests| ::
                 && Acceptable(tests[i])
                 && Accesses(Project(runs[i])) == Serial(|tests[i].table|)
    decreases |tests|
  {
    if tests != [] {
      var cfg := Run03(tests[0], flag);
      var c := Schedule(cfg, runs[0]).value;
      ScheduleRefinesProgram(cfg, runs[0], c);
      if c.prog.phase.Finished? {
        Detector(cfg, Project(runs[0]), c.prog);
        ExitSuccessMeans(tests[1..], runs[1..], c.prog.flag, code);
        assert forall i | 0 < i < |tests| :: tests[i] == tests[1..][i - 1];
        assert forall i | 0 < i < |runs| :: runs[i] == runs[1..][i - 1];
      } else {
        assert |runs| == 1;
        AbortedIsNotSerial(cfg, runs[0], c);
      }
    }
  }

  /** A run that aborted on a failed creation cannot have all its accesses behind it. */
  lemma AbortedIsNotSerial(cfg: Config, moves: seq<Move>, c: Core)
    requires Schedule(cfg, moves) == Some(c) && c.prog.phase.Aborted?
    ensures Accesses(Project(moves)) != Serial(|cfg.table|)
  {
    ScheduleRefinesProgram(cfg, moves, c);
    FlagTracksOrder(cfg, Project(moves), c.prog);
    AbortedHasFailure(cfg, Project(moves), c.prog);
  }

  lemma {:induction false} AbortedHasFailure(cfg: Config, acts: seq<Action>, s: State)
    requires Exec(cfg, acts) == Some(s) && s.phase.Aborted?
    ensures exists i | 0 <= i < |s.threads| :: s.threads[i].Failed?
  {
    var u := Exec(cfg, acts[..|acts| - 1]).value;
    match acts[|acts| - 1]
    case Create(_) => assert s.threads[|u.threads|].Failed?;
    case Join => assert s.threads[u.joined].Failed?;
    case _ =>
  }

  /** No creation fails in any of the runs. */
  predicate EachCreated(runs: seq<seq<Move>>) {
    forall i | 0 <= i < |runs| :: AllCreated(runs[i])
  }

  predicate TestFits(test: Test) {
    && AllPositive(test.table)
    && Fits(Run03(test, true))
  }

  /** A run that leaves the flag set has counted the global down to 0. */
  lemma CountsDownToZero(test: Test, flag: bool, moves: seq<Move>, c: Core)
    requires Schedule(Run03(test, flag), moves) == Some(c) && Succeeds(c.prog)
    ensures c.prog.value == 0
  {
    var cfg := Run03(test, flag);
    ScheduleRefinesProgram(cfg, moves, c);
    Detector(cfg, Project(moves), c.prog);
    SerialEndsAtTarget(cfg, Project(moves), c.prog);
  }

  /** Tests whose tables fit their policies exit with EXIT_SUCCESS under every schedule in
      which the creations succeed. */
  lemma {:induction false} FittingTestsAlwaysSucceed(tests: seq<Test>, runs: seq<seq<Move>>, code: ExitCode)
    requires ExitOf(tests, runs, true) == Some(code)
    requires forall i | 0 <= i < |tests| :: TestFits(tests[i])
    requires EachCreated(runs)
    ensures code == ExitSuccess
    decreases |tests|
  {
    if tests != [] {
      var cfg := Run03(tests[0], true);
      var c := Schedule(cfg, runs[0]).value;
      assert TestFits(tests[0]);
      AllCreatedNeverAborts(cfg, runs[0], c);
      FittingTableRunsSerially(cfg, runs[0], c);
      FittingTestsAlwaysSucceed(tests[1..], runs[1..], code);
    }
  }

  /** Some process exits without a failed creation, and not with EXIT_SUCCESS when the flag was
      down before. */
  lemma {:induction false} SomeProcessExits(tests: seq<Test>, flag: bool)
      returns (runs: seq<seq<Move>>, code: ExitCode)
    ensures ExitOf(tests, runs, flag) == Some(code)
    ensures EachCreated(runs)
    ensures !flag ==> code == ExitFailure
    decreases |tests|
  {
    if tests == [] {
      runs, code := [], if flag then ExitSuccess else ExitFailure;
    } else {
      var moves, c := SomeRunFinishes(Run03(tests[0], flag));
      var rest;
      rest, code := SomeProcessExits(tests[1..], c.prog.flag);
      runs := [moves] + rest;
      assert runs[1..] == rest;
      if !flag {
        ExitSuccessMeans(tests, runs, flag, code);
      }
    }
  }

  /** A test that does not fit has a finished run that clears the flag. */
  lemma MisfitTestCanFail(test: Test, flag: bool) returns (moves: seq<Move>, c: Core)
    requires !TestFits(test)
    ensures Schedule(Run03(test, flag), moves) == Some(c)
    ensures c.prog.phase.Finished? && AllCreated(moves) && !c.prog.flag
  {
    var cfg := Run03(test, flag);
    if Fits(cfg) {
      moves, c := SomeRunFinishes(cfg);
      FittingTableRunsSerially(cfg, moves, c);
    } else {
      var i := MisfitExists(cfg);
      moves, c := MisfitHasFailingRun(cfg, i);
    }
  }

  lemma {:induction false} MisfitProcessCanFail(tests: seq<Test>, k: nat, flag: bool) returns (runs: seq<seq<Move>>)
    requires k < |tests| && !TestFits(tests[k])
    ensures ExitOf(tests, runs, flag) == Some(ExitFailure)
    ensures EachCreated(runs)
    decreases |tests|
  {
    var moves, c, rest;
    if k == 0 {
      moves, c := MisfitTestCanFail(tests[0], flag);
      var code;
      rest, code := SomeProcessExits(tests[1..], false);
    } else {
      moves, c := SomeRunFinishes(Run03(tests[0], flag));
      rest := MisfitProcessCanFail(tests[1..], k - 1, c.prog.flag);
    }
    runs := [moves] + rest;
    assert runs[1..] == rest;
  }

  ghost predicate AlwaysSucceeds(tests: seq<Test>) {
    forall runs, code :: ExitOf(tests, runs, true) == Some(code) && EachCreated(runs) ==> code == ExitSuccess
  }

  /** For any list of tests: all processes without a failed creation exit with EXIT_SUCCESS if
      and only if every test's table fits its policy and has positive priorities. */
  lemma ProcessSucceedsExactlyWhenTestsFit(tests: seq<Test>)
    ensures AlwaysSucceeds(tests) <==> forall i | 0 <= i < |tests| :: TestFits(tests[i])
  {
    if forall i | 0 <= i < |tests| :: TestFits(tests[i]) {
      forall runs, code | ExitOf(tests, runs, true) == Some(code) && EachCreated(runs)
        ensures code == ExitSuccess
      {
        FittingTestsAlwaysSucceed(tests, runs, code);
      }
    } else {
      var k :| 0 <= k < |tests| && !TestFits(tests[k]);
      var runs := MisfitProcessCanFail(tests, k, true);
      assert EachCreated(runs);
    }
  }

  /** The tables listed in main are right for the policies they are run with. */
  lemma Tables03Fit(i: nat)
    requires i < |TESTS_03|
    ensures TestFits(TESTS_03[i])
  {
    var t := TESTS_03[i].table;
    assert |t| == 3 || |t| == 6;
    assert forall j | 0 < j < |t| :: t[j] <= t[j - 1] && (i >= 4 ==> t[j] < t[j - 1]);
  }

  /** tests/preempt_03_decrement.cc: the six runs of main, for any timing of main and, in the
      SCHED_RR runs, any quantum expiries. */
  lemma Decrement03AlwaysSucceeds(runs: seq<seq<Move>>, code: ExitCode)
    requires ExitOf(TESTS_03, runs, true) == Some(code)
    requires EachCreated(runs)
    ensures code == ExitSuccess
  {
    forall i | 0 <= i < |TESTS_03| ensures TestFits(TESTS_03[i]) {
      Tables03Fit(i);
    }
    FittingTestsAlwaysSucceed(TESTS_03, runs, code);
  }

  /** tests/preempt_02_fifo.cc: every SCHED_FIFO run that finishes ends at -1 with the flag
      set; it finishes unless a creation failed. */
  lemma Fifo02AlwaysSucceeds(moves: seq<Move>, c: Core)
    requires Schedule(Run02(true), moves) == Some(c) && !c.prog.phase.Working?
    ensures AllCreated(moves) ==> c.prog.phase.Finished?
    ensures c.prog.phase.Finished? ==> Succeeds(c.prog) && c.prog.value == -1
  {
    if AllCreated(moves) {
      AllCreatedNeverAborts(Run02(true), moves, c);
    }
    if c.prog.phase.Finished? {
      FittingTableRunsSerially(Run02(true), moves, c);
    }
  }

  /** A run of preempt_03 that gives up does so at the failed creation, one of preempt_02 only at
      the join of the first handle whose creation failed, when all ten have been made. */
  lemma FailedCreationEndsTheProcess(test: Test, flag: bool, moves: seq<Move>, c: Core)
    ensures Schedule(Run03(test, flag), moves) == Some(c) && c.prog.phase.Aborted? ==>
              var acts := Project(moves); acts != [] && acts[|acts| - 1] == Create(false)
    ensures Schedule(Run02(flag), moves) == Some(c) && c.prog.phase.Aborted? ==>
              var acts := Project(moves);
              && acts != [] && acts[|acts| - 1] == Join && |Creations(acts)| == 10
              && c.prog.joined < 10 && !Creations(acts)[c.prog.joined]
              && forall i | 0 <= i < c.prog.joined :: Creations(acts)[i]
  {
    if Schedule(Run03(test, flag), moves) == Some(c) && c.prog.phase.Aborted? {
      ScheduleRefinesProgram(Run03(test, flag), moves, c);
      AbortMeans(Run03(test, flag), Project(moves), c.prog);
    }
    if Schedule(Run02(flag), moves) == Some(c) && c.prog.phase.Aborted? {
      ScheduleRefinesProgram(Run02(flag), moves, c);
      AbortMeans(Run02(flag), Project(moves), c.prog);
    }
  }

  /** The source's own remark on that test: with SCHED_RR in place of SCHED_FIFO it can fail. */
  lemma RoundRobin02CanFail() returns (moves: seq<Move>, c: Core)
    ensures Schedule(Run02(true).(policy := RoundRobin), moves) == Some(c)
    ensures c.prog.phase.Finished? && AllCreated(moves) && !Succeeds(c.prog)
  {
    moves, c := MisfitHasFailingRun(Run02(true).(policy := RoundRobin), 0);
  }
}
