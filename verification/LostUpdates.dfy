/**
 Runs built by hand that reach every final value the lost-update bound allows,
 from "all decrements take effect" to "only one does".
 */
module LostUpdates {
  import opened Wrappers
  import opened Program

  ghost predicate Reaches(cfg: Config, acts: seq<Action>, s: State) {
    Exec(cfg, acts) == Some(s) && s.phase.Working?
  }

  /** Main creates the first n threads and nothing else happens. */
  lemma {:induction false} CreateFirst(cfg: Config, n: nat) returns (acts: seq<Action>, s: State)
    requires n <= |cfg.table|
    ensures Reaches(cfg, acts, s)
    ensures s.threads == seq(n, _ => Check) && s.joined == 0 && s.value == cfg.start
  {
    if n == 0 {
      acts, s := [], Init(cfg);
    } else {
      var before, u := CreateFirst(cfg, n - 1);
      ExecSnoc(cfg, before, Create(true));
      acts, s := before + [Create(true)], Step(cfg, u, Create(true));
    }
  }

  /** What one access turns a thread into while the global holds value. */
  function After(b: Body, value: int): Body
    requires Active(b)
  {
    match b
    case Check => Load
    case Load => Store(value)
    case Store(_) => Done
  }

  /** Threads lo, lo+1, ... all stand at b and each makes that one access. */
  lemma {:induction false} AccessEach(cfg: Config, acts: seq<Action>, s: State, lo: nat, b: Body)
      returns (acts': seq<Action>, s': State)
    requires Reaches(cfg, acts, s) && lo <= |s.threads| && Active(b)
    requires forall i | lo <= i < |s.threads| :: s.threads[i] == b
    ensures Reaches(cfg, acts', s') && s'.joined == s.joined && |s'.threads| == |s.threads|
    ensures forall i | 0 <= i < lo :: s'.threads[i] == s.threads[i]
    ensures forall i | lo <= i < |s.threads| :: s'.threads[i] == After(b, s.value)
    ensures s'.value == if b.Store? && lo < |s.threads| then b.reg - 1 else s.value
    decreases |s.threads| - lo
  {
    if lo == |s.threads| {
      acts', s' := acts, s;
    } else {
      ExecSnoc(cfg, acts, Access(lo));
      acts', s' := AccessEach(cfg, acts + [Access(lo)], Step(cfg, s, Access(lo)), lo + 1, b);
    }
  }

  /** The first n threads run one after the other. */
  lemma {:induction false} RunSerially(cfg: Config, n: nat) returns (acts: seq<Action>, s: State)
    requires n <= |cfg.table|
    ensures Reaches(cfg, acts, s) && |s.threads| == |cfg.table| && s.joined == 0
    ensures forall i | 0 <= i < |s.threads| :: s.threads[i] == if i < n then Done else Check
    ensures s.value == cfg.start - n
  {
    if n == 0 {
      acts, s := CreateFirst(cfg, |cfg.table|);
    } else {
      acts, s := RunSerially(cfg, n - 1);
      for stage := 0 to 3
        invariant Reaches(cfg, acts, s) && |s.threads| == |cfg.table| && s.joined == 0
        invariant forall i | 0 <= i < |s.threads| && i != n - 1 ::
                    s.threads[i] == if i < n then Done else Check
        invariant s.threads[n - 1] == match stage
                                      case 0 => Check
                                      case 1 => Load
                                      case 2 => Store(cfg.start - (n - 1))
                                      case _ => Done
        invariant s.value == cfg.start - (if stage == 3 then n else n - 1)
      {
        ExecSnoc(cfg, acts, Access(n - 1));
        acts, s := acts + [Access(n - 1)], Step(cfg, s, Access(n - 1));
      }
    }
  }

  /** Main joins every thread and makes the last VERIFY. */
  lemma {:induction false} JoinRest(cfg: Config, acts: seq<Action>, s: State)
      returns (acts': seq<Action>, s': State)
    requires Reaches(cfg, acts, s) && |s.threads| == |cfg.table| && s.joined <= |cfg.table|
    requires forall i | 0 <= i < |s.threads| :: s.threads[i].Done?
    ensures Exec(cfg, acts') == Some(s') && s'.phase.Finished? && s'.value == s.value
    decreases |cfg.table| - s.joined
  {
    if s.joined == |cfg.table| {
      ExecSnoc(cfg, acts, Finish);
      acts', s' := acts + [Finish], Step(cfg, s, Finish);
    } else {
      ExecSnoc(cfg, acts, Join);
      acts', s' := JoinRest(cfg, acts + [Join], Step(cfg, s, Join));
    }
  }

  /** The lost-update bound is exact: the final values of the finished runs are start - N up
      to start - 1, and each of them is the end of some run. */
  lemma FinalValuesAreExactly(cfg: Config, v: int)
    requires |cfg.table| > 0
    ensures cfg.start - |cfg.table| <= v <= cfg.start - 1 <==>
            exists acts, s :: Exec(cfg, acts) == Some(s) && s.phase.Finished? && s.value == v
  {
    if cfg.start - |cfg.table| <= v <= cfg.start - 1 {
      var alone := cfg.start - 1 - v;
      var acts, s := RunSerially(cfg, alone);
      acts, s := AccessEach(cfg, acts, s, alone, Check);
      acts, s := AccessEach(cfg, acts, s, alone, Load);
      acts, s := AccessEach(cfg, acts, s, alone, Store(v + 1));
      acts, s := JoinRest(cfg, acts, s);
    }
    forall acts, s | Exec(cfg, acts) == Some(s) && s.phase.Finished?
      ensures cfg.start - |cfg.table| <= s.value <= cfg.start - 1
    {
      FinalValueRange(cfg, acts, s);
    }
  }

  // ---------- Where the value of the global comes from ----------

  /** How many accesses thread t has made. */
  function AccessesOf(acts: seq<Action>, t: nat): nat {
    multiset(acts)[Access(t)]
  }

  /** A thread's second access is its load, the third its store. */
  predicate IsLoad(acts: seq<Action>, k: nat) {
    k < |acts| && acts[k].Access? && AccessesOf(acts[..k], acts[k].t) == 1
  }

  predicate IsStore(acts: seq<Action>, k: nat) {
    k < |acts| && acts[k].Access? && AccessesOf(acts[..k], acts[k].t) == 2
  }

  lemma AccessesSnoc(acts: seq<Action>, k: nat, t: nat)
    requires k < |acts|
    ensures AccessesOf(acts[..k + 1], t) == AccessesOf(acts[..k], t) + if acts[k] == Access(t) then 1 else 0
  {
    assert acts[..k + 1] == acts[..k] + [acts[k]];
  }

  lemma {:induction false} AccessesGrow(acts: seq<Action>, j: nat, k: nat, t: nat)
    requires j <= k <= |acts|
    ensures AccessesOf(acts[..j], t) <= AccessesOf(acts[..k], t)
    decreases k
  {
    if j < k {
      AccessesGrow(acts, j, k - 1, t);
      AccessesSnoc(acts, k - 1, t);
    }
  }

  predicate AtStage(b: Body, n: nat) {
    match b
    case Check => n == 0
    case Failed => n == 0
    case Load => n == 1
    case Store(_) => n == 2
    case Done => n == 3
  }

  lemma {:induction false} StageOf(cfg: Config, acts: seq<Action>, s: State, t: nat)
    requires Exec(cfg, acts) == Some(s)
    ensures if t < |s.threads| then AtStage(s.threads[t], AccessesOf(acts, t)) else AccessesOf(acts, t) == 0
  {
    if acts != [] {
      var last := |acts| - 1;
      StageOf(cfg, acts[..last], Exec(cfg, acts[..last]).value, t);
      AccessesSnoc(acts, last, t);
      assert acts[..last + 1] == acts;
    }
  }

  lemma PrefixOfPrefix(acts: seq<Action>, k: nat)
    requires k < |acts|
    ensures acts[..|acts| - 1][..k] == acts[..k]
  {
  }

  /** A thread about to store holds the value the global had at its load. */
  lemma {:induction false} RegisterIsLoaded(cfg: Config, acts: seq<Action>, s: State, l: nat)
    requires Exec(cfg, acts) == Some(s) && IsLoad(acts, l)
    requires acts[l].t < |s.threads| && s.threads[acts[l].t].Store?
    ensures Exec(cfg, acts[..l]).Some?
    ensures s.threads[acts[l].t].reg == Exec(cfg, acts[..l]).value.value
  {
    var last, t := |acts| - 1, acts[l].t;
    var u := Exec(cfg, acts[..last]).value;
    StageOf(cfg, acts[..last], u, t);
    if l < last {
      PrefixOfPrefix(acts, l);
      AccessesSnoc(acts, l, t);
      AccessesGrow(acts, l + 1, last, t);
      RegisterIsLoaded(cfg, acts[..last], u, l);
    }
  }

  lemma {:induction false} GlobalBeforeStores(cfg: Config, acts: seq<Action>, s: State)
    requires Exec(cfg, acts) == Some(s) && forall k | 0 <= k < |acts| :: !IsStore(acts, k)
    ensures s.value == cfg.start
  {
    if acts != [] {
      var last := |acts| - 1;
      var u := Exec(cfg, acts[..last]).value;
      NoStoreInPrefix(acts, acts[..last], 0);
      GlobalBeforeStores(cfg, acts[..last], u);
      OnlyStoresWrite(cfg, acts, s);
    }
  }

  lemma NoStoreInPrefix(acts: seq<Action>, before: seq<Action>, from: nat)
    requires acts != [] && before == acts[..|acts| - 1] && forall k | from <= k < |acts| :: !IsStore(acts, k)
    ensures forall k | from <= k < |before| :: !IsStore(before, k)
  {
    forall k | from <= k < |before| ensures !IsStore(before, k) {
      PrefixOfPrefix(acts, k);
      assert !IsStore(acts, k);
    }
  }

  lemma OnlyStoresWrite(cfg: Config, acts: seq<Action>, s: State)
    requires acts != [] && Exec(cfg, acts) == Some(s) && !IsStore(acts, |acts| - 1)
    ensures s.value == Exec(cfg, acts[..|acts| - 1]).value.value
  {
    var last := |acts| - 1;
    if acts[last].Access? {
      StageOf(cfg, acts[..last], Exec(cfg, acts[..last]).value, acts[last].t);
    }
  }

  /** Every store has a load of the same thread before it. */
  lemma {:induction false} StoreHasLoad(acts: seq<Action>, k: nat, t: nat) returns (l: nat)
    requires k <= |acts| && AccessesOf(acts[..k], t) == 2
    ensures l < k && acts[l] == Access(t) && IsLoad(acts, l)
  {
    l := k - 1;
    AccessesSnoc(acts, l, t);
    if acts[l] != Access(t) {
      l := StoreHasLoad(acts, l, t);
    }
  }

  /** global_value--, unguarded: after any history the global is its start if nothing was stored,
      and otherwise the value it had at the load of the thread that stored last, minus one. */
  lemma {:induction false} GlobalIsLoadedMinusOne(cfg: Config, acts: seq<Action>, s: State, l: nat, k: nat)
    requires Exec(cfg, acts) == Some(s)
    requires l < k && IsLoad(acts, l) && IsStore(acts, k) && acts[l] == acts[k]
    requires forall i | k < i < |acts| :: !IsStore(acts, i)
    ensures Exec(cfg, acts[..l]).Some? && s.value == Exec(cfg, acts[..l]).value.value - 1
  {
    var last := |acts| - 1;
    var u := Exec(cfg, acts[..last]).value;
    PrefixOfPrefix(acts, l);
    if k == last {
      StageOf(cfg, acts[..last], u, acts[k].t);
      RegisterIsLoaded(cfg, acts[..last], u, l);
    } else {
      PrefixOfPrefix(acts, k);
      NoStoreInPrefix(acts, acts[..last], k + 1);
      GlobalIsLoadedMinusOne(cfg, acts[..last], u, l, k);
      OnlyStoresWrite(cfg, acts, s);
    }
  }

  lemma {:induction false} LastStore(acts: seq<Action>, n: nat) returns (k: nat)
    requires n <= |acts| && exists i :: 0 <= i < n && IsStore(acts, i)
    ensures k < n && IsStore(acts, k) && forall i | k < i < n :: !IsStore(acts, i)
  {
    k := n - 1;
    if !IsStore(acts, k) {
      k := LastStore(acts, k);
    }
  }

  /** Both cases at once. */
  lemma GlobalAfter(cfg: Config, acts: seq<Action>, s: State)
    requires Exec(cfg, acts) == Some(s)
    ensures if forall k | 0 <= k < |acts| :: !IsStore(acts, k) then s.value == cfg.start
            else exists l, k :: && 0 <= l < k < |acts| && acts[l] == acts[k]
                                && IsLoad(acts, l) && IsStore(acts, k)
                                && (forall i | k < i < |acts| :: !IsStore(acts, i))
                                && Exec(cfg, acts[..l]).Some?
                                && s.value == Exec(cfg, acts[..l]).value.value - 1
  {
    if forall k | 0 <= k < |acts| :: !IsStore(acts, k) {
      GlobalBeforeStores(cfg, acts, s);
    } else {
      var k := LastStore(acts, |acts|);
      var l := StoreHasLoad(acts, k, acts[k].t);
      GlobalIsLoadedMinusOne(cfg, acts, s, l, k);
    }
  }
}
