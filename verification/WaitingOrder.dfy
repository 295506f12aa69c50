/**
 Which thread the scheduler runs, told from the history alone: at every access no
 unfinished thread outranks the one that runs, and of its own priority it is the
 one that went to the tail of its list the longest ago.
 */
module WaitingOrder {
  import opened Wrappers
  import opened Program
  import opened Scheduler

  /** The thread that a move sends to the tail of its list: a new one, or the one on the core
      when its quantum expires. */
  function SentToTail(c: Core, m: Move): Option<nat> {
    match m
    case Do(Create(true)) => Some(|c.prog.threads|)
    case Expire => c.running
    case _ => None
  }

  /** When t last went to the tail: a move is counted by the length of the history up to it. */
  ghost function Since(cfg: Config, moves: seq<Move>, t: nat): (n: nat)
    requires Schedule(cfg, moves).Some?
    ensures n <= |moves|
  {
    if moves == [] then 0
    else
      var last := |moves| - 1;
      if SentToTail(Schedule(cfg, moves[..last]).value, moves[last]) == Some(t) then |moves|
      else Since(cfg, moves[..last], t)
  }

  /** The thread on the core, if it has priority p, and then the list of p. */
  function Line(cfg: Config, c: Core, p: int): seq<nat> {
    (if c.running.Some? && c.running.value < |cfg.table| && cfg.table[c.running.value] == p
     then [c.running.value] else [])
    + ListAt(c.lists, p)
  }

  ghost predicate Ascending(cfg: Config, moves: seq<Move>, l: seq<nat>)
    requires Schedule(cfg, moves).Some?
  {
    forall i, j | 0 <= i < j < |l| :: Since(cfg, moves, l[i]) < Since(cfg, moves, l[j])
  }

  lemma SinceSnoc(cfg: Config, moves: seq<Move>, c: Core, m: Move, t: nat)
    requires Schedule(cfg, moves) == Some(c) && Allowed(cfg, c, m)
    ensures Schedule(cfg, moves + [m]) == Some(Next(cfg, c, m))
    ensures Since(cfg, moves + [m], t)
            == if SentToTail(c, m) == Some(t) then |moves| + 1 else Since(cfg, moves, t)
  {
    ScheduleSnoc(cfg, moves, m);
    assert (moves + [m])[..|moves|] == moves;
  }

  /** A line changes at its ends only: its head may leave, and a thread may go to its tail. */
  ghost predicate Moved(l: seq<nat>, l': seq<nat>, tail: Option<nat>) {
    match tail
    case None => l' == l || (l != [] && l' == l[1..])
    case Some(t) =>
      || (t !in l && (l' == l || l' == l + [t]))
      || (l != [] && t == l[0] && t !in l[1..] && l' == l[1..] + [t])
  }

  /** The unfinished threads of priority p stand in its line, once each, and nothing else. */
  lemma LineHasEachOnce(cfg: Config, c: Core, p: int, t: nat)
    requires Placed(cfg, c)
    ensures multiset(Line(cfg, c, p))[t] == if IsActive(cfg, c.prog, t, p) then 1 else 0
    ensures t in Line(cfg, c, p) <==> IsActive(cfg, c.prog, t, p)
  {
    assert PlacedOnce(cfg, c, t, p);
    var l := ListAt(c.lists, p);
    var front := if c.running.Some? && c.running.value < |cfg.table| && cfg.table[c.running.value] == p
                 then [c.running.value] else [];
    assert multiset(front + l) == multiset(front) + multiset(l);
    assert t in Line(cfg, c, p) <==> multiset(Line(cfg, c, p))[t] > 0;
  }

  lemma OnceMeans(l: seq<nat>, t: nat)
    requires l != [] && l[0] == t && multiset(l)[t] == 1
    ensures t !in l[1..]
  {
    assert l == [t] + l[1..];
    assert multiset(l) == multiset{t} + multiset(l[1..]);
  }

  lemma LineMoves(cfg: Config, c: Core, m: Move, p: int)
    requires Placed(cfg, c) && Allowed(cfg, c, m)
    ensures Moved(Line(cfg, c, p), Line(cfg, Next(cfg, c, m), p), SentToTail(c, m))
  {
    match m
    case Do(a) => LineAfterDo(cfg, c, a, p);
    case Dispatch(q) => LineAfterDispatch(cfg, c, q, p);
    case Preempt(q) => LineAfterPreempt(cfg, c, q, p);
    case Expire => LineAfterExpire(cfg, c, p);
  }

  lemma LineAfterDo(cfg: Config, c: Core, a: Action, p: int)
    requires Placed(cfg, c) && Allowed(cfg, c, Do(a))
    ensures Moved(Line(cfg, c, p), Line(cfg, Next(cfg, c, Do(a)), p), SentToTail(c, Do(a)))
  {
    var d := Next(cfg, c, Do(a));
    var l, l' := Line(cfg, c, p), Line(cfg, d, p);
    if a == Create(true) {
      var t := |c.prog.threads|;
      LineHasEachOnce(cfg, c, p, t);
      assert d.running == c.running;
      assert l' == if p == cfg.table[t] then l + [t] else l;
    } else {
      assert d.lists == c.lists;
      assert l' == if d.running == c.running || l == ListAt(c.lists, p) then l else l[1..];
    }
  }

  /** The thread taken from the head of the list q is of that priority. */
  lemma HeadOfList(cfg: Config, c: Core, q: int)
    requires Placed(cfg, c) && ListAt(c.lists, q) != []
    ensures ListAt(c.lists, q)[0] < |cfg.table| && cfg.table[ListAt(c.lists, q)[0]] == q
  {
    assert PlacedOnce(cfg, c, ListAt(c.lists, q)[0], q);
  }

  lemma LineAfterDispatch(cfg: Config, c: Core, q: int, p: int)
    requires Placed(cfg, c) && Allowed(cfg, c, Dispatch(q))
    ensures Line(cfg, Next(cfg, c, Dispatch(q)), p) == Line(cfg, c, p)
  {
    HeadOfList(cfg, c, q);
  }

  lemma LineAfterPreempt(cfg: Config, c: Core, q: int, p: int)
    requires Placed(cfg, c) && Allowed(cfg, c, Preempt(q))
    ensures Line(cfg, Next(cfg, c, Preempt(q)), p) == Line(cfg, c, p)
  {
    HeadOfList(cfg, c, q);
    var d, own := Next(cfg, c, Preempt(q)), cfg.table[c.running.value];
    var l := ListAt(c.lists, q);
    assert d.running == Some(l[0]);
    assert p == own ==> ListAt(d.lists, p) == [c.running.value] + ListAt(c.lists, p);
    assert p == q ==> ListAt(d.lists, p) == l[1..];
    assert p != own && p != q ==> ListAt(d.lists, p) == ListAt(c.lists, p);
  }

  lemma LineAfterExpire(cfg: Config, c: Core, p: int)
    requires Placed(cfg, c) && Allowed(cfg, c, Expire)
    ensures Moved(Line(cfg, c, p), Line(cfg, Next(cfg, c, Expire), p), c.running)
  {
    var d, r := Next(cfg, c, Expire), c.running.value;
    var own := ListAt(c.lists, cfg.table[r]);
    if own != [] {
      HeadOfList(cfg, c, cfg.table[r]);
    }
    LineHasEachOnce(cfg, c, p, r);
    if p == cfg.table[r] {
      OnceMeans(Line(cfg, c, p), r);
      assert d.running == Some((own + [r])[0]) && ListAt(d.lists, p) == (own + [r])[1..];
      assert Line(cfg, d, p) == own + [r];
    } else {
      assert ListAt(d.lists, p) == ListAt(c.lists, p);
      assert Line(cfg, d, p) == Line(cfg, c, p);
    }
  }

  lemma AscendingMoves(cfg: Config, moves: seq<Move>, c: Core, m: Move, l: seq<nat>, l': seq<nat>)
    requires Schedule(cfg, moves) == Some(c) && Allowed(cfg, c, m)
    requires Ascending(cfg, moves, l) && Moved(l, l', SentToTail(c, m))
    ensures Schedule(cfg, moves + [m]).Some? && Ascending(cfg, moves + [m], l')
  {
    ScheduleSnoc(cfg, moves, m);
    hide Since, Schedule, Next, Allowed;
    forall i, j | 0 <= i < j < |l'|
      ensures Since(cfg, moves + [m], l'[i]) < Since(cfg, moves + [m], l'[j])
    {
      SinceSnoc(cfg, moves, c, m, l'[i]);
      SinceSnoc(cfg, moves, c, m, l'[j]);
    }
  }

  /** Every line is ordered by the time its threads went to the tail. */
  lemma {:induction false} LinesAscend(cfg: Config, moves: seq<Move>, c: Core, p: int)
    requires Schedule(cfg, moves) == Some(c)
    ensures Ascending(cfg, moves, Line(cfg, c, p))
  {
    if moves != [] {
      var last := |moves| - 1;
      var b := Schedule(cfg, moves[..last]).value;
      LinesAscend(cfg, moves[..last], b, p);
      EveryThreadHasOnePlace(cfg, moves[..last], b);
      LineMoves(cfg, b, moves[last], p);
      AscendingMoves(cfg, moves[..last], b, moves[last], Line(cfg, b, p), Line(cfg, c, p));
      assert moves[..last] + [moves[last]] == moves;
    }
  }

  /** Under either policy, whatever the table and whenever main creates: whenever u makes an
      access, no unfinished thread t has a higher priority, and of u's priority each other one
      went to the tail of their list after u did. */
  lemma LongestWaitingRuns(cfg: Config, moves: seq<Move>, u: nat, c: Core, t: nat)
    requires Schedule(cfg, moves) == Some(c) && Schedule(cfg, moves + [Do(Access(u))]).Some?
    requires t < |c.prog.threads| && Active(c.prog.threads[t])
    ensures u < |cfg.table| && t < |cfg.table| && cfg.table[t] <= cfg.table[u]
    ensures cfg.table[t] == cfg.table[u] && t != u ==> Since(cfg, moves, u) < Since(cfg, moves, t)
  {
    assert (moves + [Do(Access(u))])[..|moves|] == moves;
    EveryThreadHasOnePlace(cfg, moves, c);
    var p := cfg.table[t];
    assert PlacedOnce(cfg, c, t, p);
    if p == cfg.table[u] && t != u {
      LinesAscend(cfg, moves, c, p);
      LineHasEachOnce(cfg, c, p, t);
      var l := Line(cfg, c, p);
      assert l[0] == u;
      var j :| 0 <= j < |l| && l[j] == t;
    }
  }

  lemma FifoStep(cfg: Config, c: Core, m: Move, u: nat)
    requires Allowed(cfg, c, m) && cfg.policy.Fifo?
    requires u < |Next(cfg, c, m).prog.threads| && !Next(cfg, c, m).prog.threads[u].Failed?
    ensures if u < |c.prog.threads| then !c.prog.threads[u].Failed? && SentToTail(c, m) != Some(u)
            else u == |c.prog.threads| && SentToTail(c, m) == Some(u)
  {
  }

  /** Under SCHED_FIFO a thread goes to the tail only when it is created. */
  lemma {:induction false} FifoWaitsSinceCreation(cfg: Config, moves: seq<Move>, c: Core, t: nat, u: nat)
    requires Schedule(cfg, moves) == Some(c) && cfg.policy.Fifo?
    requires t < u < |c.prog.threads| && !c.prog.threads[t].Failed? && !c.prog.threads[u].Failed?
    ensures Since(cfg, moves, t) < Since(cfg, moves, u)
  {
    assert moves != [];
    var last := |moves| - 1;
    var b, m := Schedule(cfg, moves[..last]).value, moves[last];
    assert Allowed(cfg, b, m) && c == Next(cfg, b, m) && moves[..last] + [m] == moves;
    hide Schedule, Since, Allowed, Next, SentToTail;
    FifoStep(cfg, b, m, t);
    FifoStep(cfg, b, m, u);
    SinceSnoc(cfg, moves[..last], b, m, t);
    SinceSnoc(cfg, moves[..last], b, m, u);
    if u < |b.prog.threads| {
      FifoWaitsSinceCreation(cfg, moves[..last], b, t, u);
    }
  }

  /** SCHED_FIFO, any table, any timing of main: among the threads of one priority the bodies run
      in creation order without overlap. Whenever u makes an access, every thread of its
      priority created before it has ended, or was never created successfully. */
  lemma FifoRunsInCreationOrder(cfg: Config, moves: seq<Move>, u: nat, c: Core, t: nat)
    requires Schedule(cfg, moves) == Some(c) && Schedule(cfg, moves + [Do(Access(u))]).Some?
    requires cfg.policy.Fifo? && t < u < |cfg.table| && cfg.table[t] == cfg.table[u]
    ensures u < |c.prog.threads| && (c.prog.threads[t].Done? || c.prog.threads[t].Failed?)
  {
    assert (moves + [Do(Access(u))])[..|moves|] == moves;
    if Active(c.prog.threads[t]) {
      LongestWaitingRuns(cfg, moves, u, c, t);
      FifoWaitsSinceCreation(cfg, moves, c, t, u);
    }
  }
}
