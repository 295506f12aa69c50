/**
 The variables of one test run, updated in place: the global, the verify flag of
 include/base/verify.h, the expected values and the threads' positions. Every
 method performs one step of module Program.
 */
module Harness {
  import opened Wrappers
  import opened Program

  /** The process-wide flag behind VERIFY. */
  class VerifyFlag {
    var value: bool

    constructor (value: bool)
      ensures this.value == value
    {
      this.value := value;
    }

    /** VERIFY(expr): evaluates to expr, and a failure clears the flag for good. */
    method Verify(expr: bool) returns (ok: bool)
      modifies this
      ensures ok == expr
      ensures value == (old(value) && expr)
    {
      ok := expr;
      if !expr {
        value := false;
      }
    }
  }

  class TestRun {
    const cfg: Config
    const verify: VerifyFlag
    const expected: array<int>
    const body: array<Body>
    var globalValue: int
    var created: nat
    var joined: nat
    var phase: Phase

    ghost predicate Valid()
      reads this, expected, body
    {
      && expected.Length == body.Length == |cfg.table|
      && created <= |cfg.table|
      && forall i | 0 <= i < expected.Length :: expected[i] == cfg.start - i
    }

    ghost function View(): State
      reads this, verify, expected, body
      requires Valid()
    {
      State(globalValue, verify.value, body[..created], joined, phase)
    }

    /** The part of run before the first creation: set the global, verify the table, fill the
        expected values. */
    constructor (cfg: Config)
      ensures Valid() && this.cfg == cfg && fresh(verify) && fresh(expected) && fresh(body)
      ensures View() == Init(cfg)
    {
      var n := |cfg.table|;
      var flag := new VerifyFlag(cfg.entryFlag);
      var values := new int[n];
      for i := 0 to n
        invariant forall j | 0 <= j < i :: values[j] == cfg.start - j
        invariant flag.value <==>
                  && cfg.entryFlag
                  && (cfg.verifiesTable ==> forall j | 0 < j < i :: cfg.table[j] <= cfg.table[j - 1])
      {
        if cfg.verifiesTable {
          var _ := flag.Verify(i == 0 || cfg.table[i] <= cfg.table[i - 1]);
        }
        values[i] := cfg.start - i;
      }
      this.cfg, verify, expected := cfg, flag, values;
      body := new Body[n](_ => Check);
      globalValue, created, joined, phase := cfg.start, 0, 0, Working;
    }

    /** Construct the next base::thread; ok says whether pthread_create and its attribute calls
        succeed. */
    method Create(ok: bool)
      requires Valid() && Enabled(cfg, View(), Action.Create(ok))
      modifies this, body, verify
      ensures Valid() && View() == Step(cfg, old(View()), Action.Create(ok))
    {
      var _ := verify.Verify(cfg.table[created] > 0);
      body[created] := if ok then Check else Failed;
      created := created + 1;
      if !ok && cfg.abortsAtCreate {
        phase := Aborted;
      }
    }

    /** The next access of thread t in decrement. */
    method Access(t: nat)
      requires Valid() && Enabled(cfg, View(), Action.Access(t))
      modifies this, body, verify
      ensures Valid() && View() == Step(cfg, old(View()), Action.Access(t))
    {
      match body[t] {
        case Check =>
          var _ := verify.Verify(globalValue == expected[t]);
          body[t] := Load;
        case Load =>
          body[t] := Store(globalValue);
        case Store(reg) =>
          globalValue := reg - 1;
          body[t] := Done;
      }
    }

    /** Main comes to the next handle: join it, or give up if its creation had failed. */
    method Join()
      requires Valid() && Enabled(cfg, View(), Action.Join)
      modifies this
      ensures Valid() && View() == Step(cfg, old(View()), Action.Join)
    {
      if body[joined].Done? {
        joined := joined + 1;
      } else {
        phase := Aborted;
      }
    }

    /** The VERIFY of the final value. */
    method Finish()
      requires Valid() && Enabled(cfg, View(), Action.Finish)
      modifies this, verify
      ensures Valid() && View() == Step(cfg, old(View()), Action.Finish)
    {
      var _ := verify.Verify(globalValue == cfg.start - |cfg.table|);
      phase := Finished;
    }

    /** Performs a whole history. If it finishes, the flag left behind says whether the bodies
        ran in creation order without overlap. */
    method Replay(acts: seq<Action>)
      requires Valid() && View() == Init(cfg) && Exec(cfg, acts).Some?
      modifies this, body, verify
      ensures Valid() && Exec(cfg, acts) == Some(View())
      ensures phase.Finished? ==>
                (verify.value <==>
                   && Init(cfg).flag
                   && AllPositive(cfg.table)
                   && Accesses(acts) == Serial(|cfg.table|))
    {
      for i := 0 to |acts|
        invariant Valid() && Exec(cfg, acts[..i]) == Some(View())
      {
        PrefixEnabled(cfg, acts, i);
        match acts[i] {
          case Create(ok) => Create(ok);
          case Access(t) => Access(t);
          case Join => Join();
          case Finish => Finish();
        }
      }
      assert acts[..|acts|] == acts;
      if phase.Finished? {
        Detector(cfg, acts, View());
      }
    }
  }

  /** Every prefix of a history is a history, and its next action is enabled. */
  lemma {:induction false} PrefixEnabled(cfg: Config, acts: seq<Action>, i: nat)
    requires Exec(cfg, acts).Some? && i < |acts|
    ensures Exec(cfg, acts[..i]).Some?
    ensures Enabled(cfg, Exec(cfg, acts[..i]).value, acts[i])
    ensures Exec(cfg, acts[..i + 1]) == Some(Step(cfg, Exec(cfg, acts[..i]).value, acts[i]))
  {
    var last := |acts| - 1;
    if i < last {
      PrefixEnabled(cfg, acts[..last], i);
      assert acts[..last][..i] == acts[..i] && acts[..last][..i + 1] == acts[..i + 1];
    } else {
      assert acts[..i + 1] == acts;
    }
  }
}
