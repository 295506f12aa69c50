/**
 What one pass of bubble_sort does to the inversion table, and what follows for
 the result, the number of passes and the swap count, duplicates included.
 */
module BubbleSortTheorems {
  import opened BubbleSort

  // ---------- The inversion table ----------

  /** How many elements of s are strictly greater than x. */
  function Greater(s: seq<int>, x: int): (c: nat)
    ensures c <= |s|
  {
    if s == [] then 0
    else Greater(s[..|s| - 1], x) + if s[|s| - 1] > x then 1 else 0
  }

  lemma {:induction false} GreaterZero(s: seq<int>, x: int)
    ensures Greater(s, x) == 0 <==> forall i | 0 <= i < |s| :: s[i] <= x
  {
    if s != [] {
      GreaterZero(s[..|s| - 1], x);
    }
  }

  /** For each element, how many strictly greater elements precede it. */
  function Table(s: seq<int>): (t: seq<nat>)
    ensures |t| == |s|
  {
    seq(|s|, i requires 0 <= i < |s| => Greater(s[..i], s[i]))
  }

  function Dec(n: nat): nat {
    if n == 0 then 0 else n - 1
  }

  /** The largest of s[0], ..., s[j]. */
  function Max(s: seq<int>, j: nat): (m: int)
    requires j < |s|
    ensures forall i | 0 <= i <= j :: s[i] <= m
  {
    if j == 0 then s[0]
    else if s[j] <= Max(s, j - 1) then Max(s, j - 1)
    else s[j]
  }

  /** A pass carries the largest element seen so far and drops it before a larger one. */
  lemma {:induction false} InnerShape(s: seq<int>, j: nat)
    requires j < |s|
    ensures var t := Inner(s, j);
      && t[j] == Max(s, j)
      && (forall k | j < k < |s| :: t[k] == s[k])
      && (forall i | 0 <= i < j :: t[i] == if s[i + 1] <= Max(s, i) then s[i + 1] else Max(s, i))
  {
    if j > 0 {
      InnerShape(s, j - 1);
    }
  }

  lemma PassShape(s: seq<int>, i: nat)
    requires i < |s|
    ensures Pass(s)[i]
            == if i + 1 < |s| && s[i + 1] <= Max(s, i) then s[i + 1] else Max(s, i)
  {
    InnerShape(s, |s| - 1);
  }

  lemma GreaterSnoc(s: seq<int>, y: int, x: int)
    ensures Greater(s + [y], x) == Greater(s, x) + if y > x then 1 else 0
  {
    assert (s + [y])[..|s|] == s;
  }

  lemma {:induction false} PassGreater(s: seq<int>, j: nat, x: int)
    requires j < |s|
    ensures Greater(Pass(s)[..j], x) + (if Max(s, j) > x then 1 else 0) == Greater(s[..j + 1], x)
  {
    if j == 0 {
      assert Pass(s)[..0] == [] && s[..1] == [] + [s[0]];
      GreaterSnoc([], s[0], x);
    } else {
      PassGreater(s, j - 1, x);
      PassShape(s, j - 1);
      assert Pass(s)[..j] == Pass(s)[..j - 1] + [Pass(s)[j - 1]];
      assert s[..j + 1] == s[..j] + [s[j]];
      GreaterSnoc(Pass(s)[..j - 1], Pass(s)[j - 1], x);
      GreaterSnoc(s[..j], s[j], x);
    }
  }

  lemma MaxOfPrefix(s: seq<int>, i: nat, x: int)
    requires i < |s|
    ensures Greater(s[..i + 1], x) == 0 <==> Max(s, i) <= x
  {
    GreaterZero(s[..i + 1], x);
    assert s[CarriedFrom(s, i)] == Max(s, i);
  }

  lemma PassLowersEntry(s: seq<int>, i: nat)
    requires i < |s|
    ensures Table(Pass(s))[i] == if i + 1 < |s| then Dec(Table(s)[i + 1]) else 0
  {
    var x := Pass(s)[i];
    PassShape(s, i);
    PassGreater(s, i, x);
    MaxOfPrefix(s, i, x);
    if i + 1 < |s| {
      MaxOfPrefix(s, i, s[i + 1]);
    }
  }

  /** One pass moves the inversion table one place to the left and lowers each nonzero entry
      by exactly one; zero entries stay zero. Duplicates included. */
  lemma PassLowersTable(s: seq<int>)
    requires s != []
    ensures forall i | 0 <= i < |s| - 1 :: Table(Pass(s))[i] == Dec(Table(s)[i + 1])
    ensures Table(Pass(s))[|s| - 1] == 0
  {
    forall i | 0 <= i < |s|
      ensures Table(Pass(s))[i] == if i + 1 < |s| then Dec(Table(s)[i + 1]) else 0
    {
      PassLowersEntry(s, i);
    }
  }

  // ---------- The same, element by element ----------

  /** The position of the element a pass carries after j comparisons. */
  function CarriedFrom(s: seq<int>, j: nat): (p: nat)
    requires j < |s|
    ensures p <= j && s[p] == Max(s, j)
  {
    if j == 0 then 0 else if s[j] <= Max(s, j - 1) then CarriedFrom(s, j - 1) else j
  }

  /** The position before the pass of the element that is at i after it. */
  function Origin(s: seq<int>, i: nat): (p: nat)
    requires i < |s|
    ensures p < |s|
  {
    if i + 1 < |s| && s[i + 1] <= Max(s, i) then i + 1 else CarriedFrom(s, i)
  }

  lemma {:induction false} CarriedLater(s: seq<int>, i: nat, j: nat)
    requires i <= j < |s|
    ensures CarriedFrom(s, j) == CarriedFrom(s, i)
            || (i < CarriedFrom(s, j) <= j && s[CarriedFrom(s, j)] > Max(s, CarriedFrom(s, j) - 1))
  {
    if i < j {
      CarriedLater(s, i, j - 1);
      assert CarriedFrom(s, j) == if s[j] <= Max(s, j - 1) then CarriedFrom(s, j - 1) else j;
    }
  }

  lemma CarriedHasZeroEntry(s: seq<int>, i: nat)
    requires i < |s|
    ensures Table(s)[CarriedFrom(s, i)] == 0
  {
    var p := CarriedFrom(s, i);
    GreaterZero(s[..p], s[p]);
  }

  lemma PassLowersOneElement(s: seq<int>, i: nat)
    requires i < |s|
    ensures Pass(s)[i] == s[Origin(s, i)]
    ensures Table(Pass(s))[i] == Dec(Table(s)[Origin(s, i)])
  {
    PassShape(s, i);
    PassLowersEntry(s, i);
    CarriedHasZeroEntry(s, i);
    if i + 1 < |s| {
      MaxOfPrefix(s, i, s[i + 1]);
    }
  }

  lemma OriginsDiffer(s: seq<int>, i: nat, j: nat)
    requires i < j < |s|
    ensures Origin(s, i) != Origin(s, j)
  {
    CarriedLater(s, i + 1, j);
  }

  /** A pass permutes the elements and lowers the entry of every single element by one, or
      leaves it at zero, wherever the element goes. */
  lemma PassLowersEachElement(s: seq<int>)
    requires s != []
    ensures forall i | 0 <= i < |s| ::
              && Pass(s)[i] == s[Origin(s, i)]
              && Table(Pass(s))[i] == Dec(Table(s)[Origin(s, i)])
    ensures forall i, j | 0 <= i < j < |s| :: Origin(s, i) != Origin(s, j)
  {
    hide Pass, Table, Origin;
    forall i | 0 <= i < |s|
      ensures Pass(s)[i] == s[Origin(s, i)] && Table(Pass(s))[i] == Dec(Table(s)[Origin(s, i)])
    {
      PassLowersOneElement(s, i);
    }
    forall i, j | 0 <= i < j < |s| ensures Origin(s, i) != Origin(s, j) {
      OriginsDiffer(s, i, j);
    }
  }

  // ---------- Sorted permutation ----------

  predicate Sorted(s: seq<int>) {
    forall i, j | 0 <= i < j < |s| :: s[i] <= s[j]
  }

  predicate Distinct(s: seq<int>) {
    forall i, j | 0 <= i < j < |s| :: s[i] != s[j]
  }

  lemma {:induction false} InnerPermutes(s: seq<int>, j: nat)
    requires j < |s|
    ensures multiset(Inner(s, j)) == multiset(s)
  {
    if j > 0 {
      InnerPermutes(s, j - 1);
    }
  }

  lemma SortedByTable(s: seq<int>)
    ensures Sorted(s) <==> forall i | 0 <= i < |s| :: Table(s)[i] == 0
  {
    forall i | 0 <= i < |s|
      ensures Table(s)[i] == 0 <==> forall k | 0 <= k < i :: s[k] <= s[i]
    {
      GreaterZero(s[..i], s[i]);
    }
  }

  lemma {:induction false} DistinctByCount(s: seq<int>)
    ensures Distinct(s) <==> forall x | x in s :: multiset(s)[x] == 1
  {
    if s != [] {
      var last := |s| - 1;
      var before, y := s[..last], s[last];
      DistinctByCount(before);
      assert s == before + [y];
      assert Distinct(s) <==> Distinct(before) && y !in before;
      assert multiset(s) == multiset(before) + multiset{y};
      if Distinct(s) {
        assert forall x | x in s :: x in before || x == y;
      } else if y in before {
        assert multiset(s)[y] > 1;
      } else {
        var x :| x in before && multiset(before)[x] != 1;
        assert multiset(s)[x] == multiset(before)[x];
      }
    }
  }

  lemma PassKeepsDistinct(s: seq<int>)
    requires s != []
    ensures Distinct(Pass(s)) <==> Distinct(s)
  {
    InnerPermutes(s, |s| - 1);
    DistinctByCount(s);
    DistinctByCount(Pass(s));
    assert forall x :: x in s <==> x in multiset(s);
    assert forall x :: x in Pass(s) <==> x in multiset(Pass(s));
  }

  // ---------- Swaps in one pass ----------

  /** How many of the first n entries are at least k. */
  function CountAtLeast(t: seq<nat>, k: nat): nat {
    if t == [] then 0
    else CountAtLeast(t[..|t| - 1], k) + if t[|t| - 1] >= k then 1 else 0
  }

  /** The swaps among the first j comparisons that exchange unequal elements. */
  function StrictSwaps(s: seq<int>, j: nat): (c: nat)
    requires j < |s|
    ensures c <= InnerSwaps(s, j)
  {
    if j == 0 then 0
    else StrictSwaps(s, j - 1) + if Inner(s, j - 1)[j] < Inner(s, j - 1)[j - 1] then 1 else 0
  }

  lemma TableBound(s: seq<int>)
    ensures forall i | 0 <= i < |s| :: Table(s)[i] <= i
  {
  }

  lemma TableEntry(s: seq<int>, j: nat)
    requires 0 < j < |s|
    ensures Table(s)[j] > 0 <==> s[j] < Max(s, j - 1)
    ensures Inner(s, j - 1)[j] == s[j] && Inner(s, j - 1)[j - 1] == Max(s, j - 1)
  {
    GreaterZero(s[..j], s[j]);
    assert s[CarriedFrom(s, j - 1)] == Max(s, j - 1);
    InnerShape(s, j - 1);
  }

  lemma {:induction false} StrictSwapsCountEntries(s: seq<int>, j: nat)
    requires j < |s|
    ensures StrictSwaps(s, j) == CountAtLeast(Table(s)[..j + 1], 1)
  {
    var t := Table(s);
    if j == 0 {
      assert t[..1][..0] == [];
    } else {
      StrictSwapsCountEntries(s, j - 1);
      TableEntry(s, j);
      assert t[..j + 1][..j] == t[..j];
    }
  }

  /** A pass makes exactly one strict swap per nonzero entry. */
  lemma PassStrictSwaps(s: seq<int>)
    requires s != []
    ensures StrictSwaps(s, |s| - 1) == CountAtLeast(Table(s), 1) <= PassSwaps(s)
  {
    StrictSwapsCountEntries(s, |s| - 1);
    assert Table(s)[..|s|] == Table(s);
  }

  /** Two equal elements with nothing greater before the second are swapped in this pass. */
  lemma {:induction false} EqualSwap(s: seq<int>, p: nat, q: nat, j: nat)
    requires p < q <= j < |s| && s[p] == s[q] && Table(s)[q] == 0
    ensures InnerSwaps(s, j) > StrictSwaps(s, j)
  {
    TableEntry(s, j);
    if q == j {
      assert s[q] == Max(s, q - 1);
    } else {
      EqualSwap(s, p, q, j - 1);
    }
  }

  lemma {:induction false} DistinctSwapsStrictly(s: seq<int>, j: nat)
    requires j < |s| && Distinct(s)
    ensures InnerSwaps(s, j) == StrictSwaps(s, j)
  {
    if j > 0 {
      DistinctSwapsStrictly(s, j - 1);
      TableEntry(s, j);
      assert s[CarriedFrom(s, j - 1)] == Max(s, j - 1);
    }
  }

  // ---------- Many passes ----------

  function PassN(s: seq<int>, k: nat): (t: seq<int>)
    requires s != []
    ensures |t| == |s|
  {
    if k == 0 then s else Pass(PassN(s, k - 1))
  }

  /** The table moved k places to the left and lowered k times. */
  function Shifted(t: seq<nat>, k: nat): seq<nat> {
    seq(|t|, i requires 0 <= i < |t| => if i + k < |t| && t[i + k] > k then t[i + k] - k else 0)
  }

  lemma {:induction false} TableAfter(s: seq<int>, k: nat)
    requires s != []
    ensures Table(PassN(s, k)) == Shifted(Table(s), k)
  {
    if k > 0 {
      TableAfter(s, k - 1);
      PassLowersTable(PassN(s, k - 1));
    }
  }

  lemma {:induction false} CountShifted(t: seq<nat>, u: seq<nat>, k: nat)
    requires |t| >= k && |u| == |t| - k
    requires forall i | 0 <= i < |u| :: u[i] == if t[i + k] > k then t[i + k] - k else 0
    requires forall i | 0 <= i < |t| :: t[i] <= i
    ensures CountAtLeast(u, 1) == CountAtLeast(t, k + 1)
  {
    if t != [] {
      var last := |t| - 1;
      if |u| == 0 {
        CountNone(t, k + 1);
      } else {
        CountShifted(t[..last], u[..|u| - 1], k);
      }
    }
  }

  lemma {:induction false} CountNone(t: seq<nat>, k: nat)
    requires forall i | 0 <= i < |t| :: t[i] < k
    ensures CountAtLeast(t, k) == 0
  {
    if t != [] {
      CountNone(t[..|t| - 1], k);
    }
  }

  lemma {:induction false} CountWithZeros(t: seq<nat>, m: nat)
    requires m <= |t| && forall i | m <= i < |t| :: t[i] == 0
    ensures CountAtLeast(t, 1) == CountAtLeast(t[..m], 1)
  {
    if m == |t| {
      assert t[..m] == t;
    } else {
      CountWithZeros(t[..|t| - 1], m);
      assert t[..|t| - 1][..m] == t[..m];
    }
  }

  /** Pass k makes exactly one strict swap per element whose initial entry is at least k. */
  lemma StrictSwapsOfPass(s: seq<int>, k: nat)
    requires 1 <= k <= |s|
    ensures StrictSwaps(PassN(s, k - 1), |s| - 1) == CountAtLeast(Table(s), k)
  {
    PassStrictSwaps(PassN(s, k - 1));
    EntriesLeft(s, k - 1);
  }

  lemma {:induction false} PassNPlus(s: seq<int>, k: nat)
    requires s != []
    ensures PassN(s, k + 1) == PassN(Pass(s), k)
  {
    if k > 0 {
      PassNPlus(s, k - 1);
    }
  }

  lemma {:induction false} RunIsPasses(s: seq<int>, r: nat)
    requires s != []
    ensures Run(s, r).v == PassN(s, Run(s, r).passes)
    decreases r
  {
    if r > 0 {
      PassNPlus(s, 0);
      if PassSwaps(s) > 0 {
        RunIsPasses(Pass(s), r - 1);
        PassNPlus(s, Run(Pass(s), r - 1).passes);
      }
    }
  }

  /** The passes counted by PassN are those the sort makes. */
  lemma SortIsPasses(s: seq<int>)
    requires s != []
    ensures Sort(s).v == PassN(s, Sort(s).passes)
  {
    RunIsPasses(s, |s| - 1);
  }

  lemma EntriesLeft(s: seq<int>, k: nat)
    requires k < |s|
    ensures CountAtLeast(Table(PassN(s, k)), 1) == CountAtLeast(Table(s), k + 1)
  {
    TableAfter(s, k);
    TableBound(s);
    EntriesOfShifted(Table(s), k);
  }

  lemma EntriesOfShifted(t: seq<nat>, k: nat)
    requires k <= |t| && forall i | 0 <= i < |t| :: t[i] <= i
    ensures CountAtLeast(Shifted(t, k), 1) == CountAtLeast(t, k + 1)
  {
    CountWithZeros(Shifted(t, k), |t| - k);
    CountShifted(t, Shifted(t, k)[..|t| - k], k);
  }

  // ---------- The result ----------

  /** With r passes to go, only the first r + 1 entries can be nonzero. */
  predicate Settled(s: seq<int>, r: nat) {
    forall i | r < i < |s| :: Table(s)[i] == 0
  }

  lemma PassSettles(s: seq<int>, r: nat)
    requires s != [] && r > 0 && Settled(s, r)
    ensures Settled(Pass(s), r - 1)
  {
    PassLowersTable(s);
  }

  lemma {:induction false} RunSorts(s: seq<int>, r: nat)
    requires (r > 0 ==> s != []) && Settled(s, r)
    ensures Sorted(Run(s, r).v) && multiset(Run(s, r).v) == multiset(s)
    decreases r
  {
    SortedByTable(s);
    if r == 0 {
      assert forall i | 0 <= i < |s| :: Table(s)[i] == 0;
    } else {
      InnerPermutes(s, |s| - 1);
      PassSettles(s, r);
      if PassSwaps(s) == 0 {
        NoSwapsMeansSorted(s);
      } else {
        RunSorts(Pass(s), r - 1);
      }
    }
  }

  lemma {:induction false} CountZero(t: seq<nat>)
    ensures CountAtLeast(t, 1) == 0 <==> forall i | 0 <= i < |t| :: t[i] == 0
  {
    if t != [] {
      CountZero(t[..|t| - 1]);
    }
  }

  lemma NoSwapsMeansSorted(s: seq<int>)
    requires s != [] && PassSwaps(s) == 0
    ensures Sorted(s) && Sorted(Pass(s)) && forall i | 0 <= i < |s| :: Table(s)[i] == 0
  {
    PassStrictSwaps(s);
    CountZero(Table(s));
    SortedByTable(s);
    PassLowersTable(s);
    SortedByTable(Pass(s));
  }

  lemma LastIsLargest(a: seq<int>, x: int)
    requires a != [] && Sorted(a) && x in multiset(a)
    ensures x <= a[|a| - 1]
  {
    assert x in a;
  }

  lemma SplitLast(a: seq<int>)
    requires a != []
    ensures multiset(a) == multiset(a[..|a| - 1]) + multiset{a[|a| - 1]}
  {
    assert a == a[..|a| - 1] + [a[|a| - 1]];
  }

  lemma LastElementsAgree(a: seq<int>, b: seq<int>)
    requires a != [] && b != [] && Sorted(a) && Sorted(b) && multiset(a) == multiset(b)
    ensures a[|a| - 1] == b[|b| - 1]
    ensures multiset(a[..|a| - 1]) == multiset(b[..|b| - 1])
  {
    SplitLast(a);
    SplitLast(b);
    LastIsLargest(a, b[|b| - 1]);
    LastIsLargest(b, a[|a| - 1]);
    CancelLast(multiset(a[..|a| - 1]), multiset(b[..|b| - 1]), a[|a| - 1]);
  }

  lemma {:induction false} SortedPermutationUnique(a: seq<int>, b: seq<int>)
    requires Sorted(a) && Sorted(b) && multiset(a) == multiset(b)
    ensures a == b
  {
    assert |a| == |multiset(a)| == |multiset(b)| == |b|;
    if a != [] {
      LastElementsAgree(a, b);
      SortedPermutationUnique(a[..|a| - 1], b[..|b| - 1]);
      assert a == a[..|a| - 1] + [a[|a| - 1]];
      assert b == b[..|b| - 1] + [b[|b| - 1]];
    }
  }

  lemma CancelLast(m: multiset<int>, n: multiset<int>, x: int)
    requires m + multiset{x} == n + multiset{x}
    ensures m == n
  {
    assert m == m + multiset{x} - multiset{x};
    assert n == n + multiset{x} - multiset{x};
  }

  /** bubble_sort returns the sorted permutation of its input, for every length. */
  lemma SortsItsInput(s: seq<int>, reference: seq<int>)
    requires Sorted(reference) && multiset(reference) == multiset(s)
    ensures Sort(s).v == reference
  {
    RunSorts(s, if s == [] then 0 else |s| - 1);
    SortedPermutationUnique(Sort(s).v, reference);
  }

  // ---------- The number of passes ----------

  ghost predicate IsMaxEntry(t: seq<nat>, m: nat) {
    m in t && forall i | 0 <= i < |t| :: t[i] <= m
  }

  lemma MaxEntryAfterPass(s: seq<int>, m: nat)
    requires s != [] && IsMaxEntry(Table(s), m)
    ensures IsMaxEntry(Table(Pass(s)), Dec(m))
  {
    PassLowersTable(s);
    var t, u := Table(s), Table(Pass(s));
    var i :| 0 <= i < |t| && t[i] == m;
    if i == 0 {
      assert u[|s| - 1] == 0;
    } else {
      assert u[i - 1] == Dec(m);
    }
  }

  lemma {:induction false} DistinctPasses(s: seq<int>, r: nat, m: nat)
    requires (r > 0 ==> s != []) && Distinct(s) && IsMaxEntry(Table(s), m)
    ensures Run(s, r).passes == if r <= 1 + m then r else 1 + m
    decreases r
  {
    if r > 0 {
      PassStrictSwaps(s);
      DistinctSwapsStrictly(s, |s| - 1);
      CountZero(Table(s));
      if PassSwaps(s) > 0 {
        PassKeepsDistinct(s);
        MaxEntryAfterPass(s, m);
        DistinctPasses(Pass(s), r - 1, Dec(m));
      }
    }
  }

  lemma DuplicatesForceSwap(s: seq<int>)
    requires s != [] && !Distinct(s)
    ensures PassSwaps(s) > 0
  {
    var p, q :| 0 <= p < q < |s| && s[p] == s[q];
    if PassSwaps(s) == 0 {
      NoSwapsMeansSorted(s);
      EqualSwap(s, p, q, |s| - 1);
    }
  }

  lemma {:induction false} DuplicatePasses(s: seq<int>, r: nat)
    requires !Distinct(s)
    ensures Run(s, r).passes == r
    decreases r
  {
    if r > 0 {
      DuplicatesForceSwap(s);
      PassKeepsDistinct(s);
      DuplicatePasses(Pass(s), r - 1);
    }
  }

  /** How many passes the outer loop makes: with a duplicate it never breaks early; without,
      one more than the largest entry of the inversion table, if that fits. */
  lemma PassCount(s: seq<int>, m: nat)
    requires |s| >= 2 && IsMaxEntry(Table(s), m)
    ensures Sort(s).passes
            == if Distinct(s) && 1 + m <= |s| - 1 then 1 + m else |s| - 1
  {
    if Distinct(s) {
      DistinctPasses(s, |s| - 1, m);
    } else {
      DuplicatePasses(s, |s| - 1);
    }
  }

  // ---------- The swap count ----------

  function Sum(t: seq<nat>): nat {
    if t == [] then 0 else Sum(t[..|t| - 1]) + t[|t| - 1]
  }

  lemma {:induction false} SumZero(t: seq<nat>)
    ensures Sum(t) == 0 <==> forall i | 0 <= i < |t| :: t[i] == 0
  {
    if t != [] {
      SumZero(t[..|t| - 1]);
    }
  }

  lemma {:induction false} SumLowered(t: seq<nat>, u: seq<nat>)
    requires |u| + 1 == |t| && t[0] == 0
    requires forall i | 0 <= i < |u| :: u[i] == Dec(t[i + 1])
    ensures Sum(u) + CountAtLeast(t, 1) == Sum(t)
  {
    if |u| == 0 {
      assert t[..0] == [];
    } else {
      SumLowered(t[..|t| - 1], u[..|u| - 1]);
    }
  }

  lemma PassLowersSum(s: seq<int>)
    requires s != []
    ensures Sum(Table(Pass(s))) + CountAtLeast(Table(s), 1) == Sum(Table(s))
  {
    PassLowersTable(s);
    var u := Table(Pass(s));
    SumLowered(Table(s), u[..|s| - 1]);
  }

  /** Every strict inversion costs a swap. */
  lemma {:induction false} RunSwaps(s: seq<int>, r: nat)
    requires (r > 0 ==> s != []) && Settled(s, r)
    ensures Run(s, r).swaps >= Sum(Table(s))
    ensures Distinct(s) ==> Run(s, r).swaps == Sum(Table(s))
    decreases r
  {
    if r == 0 {
      assert forall i | 0 <= i < |s| :: Table(s)[i] == 0;
      SumZero(Table(s));
    } else {
      PassStrictSwaps(s);
      if Distinct(s) {
        DistinctSwapsStrictly(s, |s| - 1);
      }
      if PassSwaps(s) == 0 {
        NoSwapsMeansSorted(s);
        SumZero(Table(s));
      } else {
        PassLowersSum(s);
        PassKeepsDistinct(s);
        PassSettles(s, r);
        RunSwaps(Pass(s), r - 1);
      }
    }
  }

  /** A duplicate costs at least one swap beyond the inversions: at the latest in the last pass. */
  lemma {:induction false} DuplicateSwaps(s: seq<int>, r: nat)
    requires r > 0 && !Distinct(s) && Settled(s, r)
    ensures Run(s, r).swaps > Sum(Table(s))
    decreases r
  {
    DuplicatesForceSwap(s);
    PassStrictSwaps(s);
    PassLowersSum(s);
    PassKeepsDistinct(s);
    PassSettles(s, r);
    RunSwaps(Pass(s), r - 1);
    if r > 1 {
      DuplicateSwaps(Pass(s), r - 1);
    } else {
      var p, q :| 0 <= p < q < |s| && s[p] == s[q];
      if q == 1 {
        TableEntry(s, 1);
      }
      EqualSwap(s, p, q, |s| - 1);
    }
  }

  ghost function InversionPairs(s: seq<int>): set<(nat, nat)> {
    set i: nat, j: nat | 0 <= i < j < |s| && s[i] > s[j] :: (i, j)
  }

  lemma {:induction false} GreaterAsPairs(s: seq<int>, j: nat, m: nat)
    requires m <= j < |s|
    ensures var pairs := set i: nat | 0 <= i < m && s[i] > s[j] :: (i, j);
      |pairs| == Greater(s[..m], s[j])
  {
    var pairs := set i: nat | 0 <= i < m && s[i] > s[j] :: (i, j);
    if m == 0 {
      assert pairs == {};
    } else {
      GreaterAsPairs(s, j, m - 1);
      var before := set i: nat | 0 <= i < m - 1 && s[i] > s[j] :: (i, j);
      assert s[..m][..m - 1] == s[..m - 1];
      if s[m - 1] > s[j] {
        assert pairs == before + {(m - 1, j)};
      } else {
        assert pairs == before;
      }
    }
  }

  lemma InversionPairsSnoc(s: seq<int>)
    requires s != []
    ensures var last := |s| - 1;
      |InversionPairs(s)| == |InversionPairs(s[..last])| + Greater(s[..last], s[last])
  {
    var last := |s| - 1;
    var before := InversionPairs(s[..last]);
    var pairs := set i: nat | 0 <= i < last && s[i] > s[last] :: (i, last);
    GreaterAsPairs(s, last, last);
    assert InversionPairs(s) == before + pairs;
    assert before !! pairs;
  }

  lemma TablePrefix(s: seq<int>, m: nat)
    requires m <= |s|
    ensures Table(s)[..m] == Table(s[..m])
  {
    assert forall i | 0 <= i < m :: s[..m][..i] == s[..i];
  }

  /** The sum of the inversion table is the number of inverted pairs. */
  lemma {:induction false} SumCountsInversions(s: seq<int>)
    ensures Sum(Table(s)) == |InversionPairs(s)|
  {
    if s == [] {
      assert InversionPairs(s) == {};
    } else {
      var last := |s| - 1;
      SumCountsInversions(s[..last]);
      TablePrefix(s, last);
      InversionPairsSnoc(s);
    }
  }

  lemma {:induction false} RunSwapsAtMost(s: seq<int>, r: nat)
    requires s != []
    ensures Run(s, r).swaps <= r * (|s| - 1)
    decreases r
  {
    if r > 0 {
      RunSwapsAtMost(Pass(s), r - 1);
      assert r * (|s| - 1) == (|s| - 1) + (r - 1) * (|s| - 1);
    }
  }

  /** The swap count lies between the number of inversions and (n - 1)^2, and is the number of
      inversions exactly when no two elements are equal. */
  lemma SwapCount(s: seq<int>)
    ensures |InversionPairs(s)| <= Sort(s).swaps
    ensures s != [] ==> Sort(s).swaps <= (|s| - 1) * (|s| - 1)
    ensures Sort(s).swaps == |InversionPairs(s)| <==> Distinct(s)
  {
    SumCountsInversions(s);
    if s == [] {
      RunSwaps(s, 0);
    } else {
      RunSwaps(s, |s| - 1);
      RunSwapsAtMost(s, |s| - 1);
      if !Distinct(s) {
        DuplicateSwaps(s, |s| - 1);
      }
    }
  }

  // ---------- The largest swap count ----------

  lemma {:induction false} AllSwapped(s: seq<int>, j: nat)
    requires j < |s|
    ensures InnerSwaps(s, j) == j <==> forall i | 0 <= i <= j :: s[i] <= s[0]
    ensures InnerSwaps(s, j) == j ==> Max(s, j) == s[0]
  {
    if j > 0 {
      AllSwapped(s, j - 1);
      TableEntry(s, j);
    }
  }

  predicate MaximalAt(s: seq<int>, i: nat) {
    i < |s| && forall k | 0 <= k < |s| :: s[k] <= s[i]
  }

  lemma FullPass(s: seq<int>, i: nat)
    requires s != [] && PassSwaps(s) == |s| - 1 && i + 1 < |s|
    ensures Pass(s)[i] == s[i + 1] && Pass(s)[|s| - 1] == s[0]
    ensures MaximalAt(Pass(s), i) <==> MaximalAt(s, i + 1)
  {
    AllSwapped(s, |s| - 1);
    forall k | 0 <= k < |s| ensures Pass(s)[k] == if k + 1 < |s| then s[k + 1] else s[0] {
      PassShape(s, k);
      MaxIsFirst(s, k);
    }
    if MaximalAt(Pass(s), i) {
      assert forall k | 0 < k < |s| :: s[k] == Pass(s)[k - 1];
    }
  }

  lemma {:induction false} MaxIsFirst(s: seq<int>, j: nat)
    requires j < |s| && forall i | 0 <= i < |s| :: s[i] <= s[0]
    ensures Max(s, j) == s[0]
  {
    if j > 0 {
      MaxIsFirst(s, j - 1);
    }
  }

  predicate MaximalUpTo(s: seq<int>, r: nat) {
    forall i | 0 <= i < r :: MaximalAt(s, i)
  }

  lemma FullPassMaxima(s: seq<int>, r: nat)
    requires 0 < r < |s| && PassSwaps(s) == |s| - 1 && MaximalAt(s, 0)
    ensures MaximalUpTo(Pass(s), r - 1) <==> MaximalUpTo(s, r)
  {
    forall i | 0 <= i < r - 1 ensures MaximalAt(Pass(s), i) <==> MaximalAt(s, i + 1) {
      FullPass(s, i);
    }
    if MaximalUpTo(Pass(s), r - 1) {
      forall i | 0 <= i < r ensures MaximalAt(s, i) {
        assert i > 0 ==> MaximalAt(Pass(s), i - 1);
      }
    }
  }

  lemma {:induction false} FullRun(s: seq<int>, r: nat)
    requires r < |s|
    ensures Run(s, r).swaps == r * (|s| - 1) <==> MaximalUpTo(s, r)
    decreases r
  {
    if r > 0 {
      var n := |s| - 1;
      AllSwapped(s, n);
      RunSwapsAtMost(Pass(s), r - 1);
      assert r * n == n + (r - 1) * n;
      if PassSwaps(s) == n {
        FullRun(Pass(s), r - 1);
        FullPassMaxima(s, r);
      } else {
        assert !MaximalAt(s, 0);
      }
    }
  }

  /** (n - 1)^2 swaps are reached exactly when every element but the last is a maximum; a
      vector of equal elements is of that kind. */
  lemma LargestSwapCount(s: seq<int>)
    requires s != []
    ensures Sort(s).swaps == (|s| - 1) * (|s| - 1)
            <==> MaximalUpTo(s, |s| - 1)
  {
    FullRun(s, |s| - 1);
  }

  const INT_MAX := 0x7fff_ffff

  lemma SquareMonotone(a: nat, b: nat)
    requires a <= b
    ensures a * a <= b * b
  {
    assert a * a <= a * b <= b * b;
  }

  lemma SquareFits(n: nat)
    requires n > 0
    ensures (n - 1) * (n - 1) <= INT_MAX <==> n <= 46341
  {
    if n <= 46341 {
      SquareMonotone(n - 1, 46340);
    } else {
      SquareMonotone(46341, n - 1);
    }
  }

  /** The counter is a 32-bit int: it cannot overflow on any vector of length n exactly when
      n is at most 46341. */
  lemma CounterFitsInt(n: nat)
    ensures (forall s | |s| == n :: Sort(s).swaps <= INT_MAX) <==> n <= 46341
  {
    if n == 0 {
      assert forall s: seq<int> | |s| == 0 :: s == [];
    } else {
      SquareFits(n);
      forall s | |s| == n ensures Sort(s).swaps <= (n - 1) * (n - 1) {
        SwapCount(s);
      }
      var equal := seq(n, _ => 0);
      assert MaximalUpTo(equal, n - 1);
      LargestSwapCount(equal);
    }
  }

  // ---------- The swap count, exactly ----------

  /** Some element before s[q] is at least as large: s[q] is no strict left-to-right maximum. */
  predicate Overtaken(s: seq<int>, q: nat) {
    q < |s| && exists p :: 0 <= p < q && s[q] <= s[p]
  }

  function OvertakenUpTo(s: seq<int>, j: nat): set<nat> {
    set q: nat | q <= j && Overtaken(s, q)
  }

  lemma OvertakenByMax(s: seq<int>, j: nat)
    requires 0 < j < |s|
    ensures |OvertakenUpTo(s, j)| == |OvertakenUpTo(s, j - 1)| + if s[j] <= Max(s, j - 1) then 1 else 0
  {
    assert s[CarriedFrom(s, j - 1)] == Max(s, j - 1);
    assert Overtaken(s, j) <==> s[j] <= Max(s, j - 1);
    assert OvertakenUpTo(s, j) == OvertakenUpTo(s, j - 1) + if Overtaken(s, j) then {j} else {};
  }

  lemma {:induction false} InnerSwapsAre(s: seq<int>, j: nat)
    requires j < |s|
    ensures InnerSwaps(s, j) == |OvertakenUpTo(s, j)|
  {
    if j == 0 {
      assert OvertakenUpTo(s, 0) == {};
    } else {
      InnerSwapsAre(s, j - 1);
      InnerShape(s, j - 1);
      OvertakenByMax(s, j);
      hide OvertakenUpTo, Overtaken, Max;
    }
  }

  /** A pass makes one swap, equal neighbours included, for each element that has one at least
      as large before it: as many as there are elements less the strict left-to-right maxima. */
  lemma PassSwapsAre(s: seq<int>)
    requires s != []
    ensures PassSwaps(s) == |set q: nat | q < |s| && Overtaken(s, q)|
  {
    InnerSwapsAre(s, |s| - 1);
    assert OvertakenUpTo(s, |s| - 1) == set q: nat | q < |s| && Overtaken(s, q);
  }

  /** These numbers added up over the first k passes. */
  function OvertakenInPasses(s: seq<int>, k: nat): nat
    requires s != []
  {
    if k == 0 then 0
    else
      var u := PassN(s, k - 1);
      OvertakenInPasses(s, k - 1) + |set q: nat | q < |u| && Overtaken(u, q)|
  }

  lemma {:induction false} OvertakenInNextPasses(s: seq<int>, k: nat)
    requires s != []
    ensures OvertakenInPasses(s, k + 1) == PassSwaps(s) + OvertakenInPasses(Pass(s), k)
  {
    PassSwapsAre(s);
    if k == 0 {
      assert OvertakenInPasses(s, 1) == OvertakenInPasses(s, 0) + |set q: nat | q < |s| && Overtaken(s, q)|;
    } else {
      OvertakenInNextPasses(s, k - 1);
      PassNPlus(s, k - 1);
    }
  }

  lemma {:induction false} RunSwapsAre(s: seq<int>, r: nat)
    requires s != []
    ensures Run(s, r).swaps == OvertakenInPasses(s, Run(s, r).passes)
    decreases r
  {
    if r > 0 {
      if PassSwaps(s) == 0 {
        OvertakenInNextPasses(s, 0);
      } else {
        RunSwapsAre(Pass(s), r - 1);
        OvertakenInNextPasses(s, Run(Pass(s), r - 1).passes);
      }
    }
  }

  /** The returned count, for every vector. */
  lemma SwapsAre(s: seq<int>)
    requires s != []
    ensures Sort(s).swaps == OvertakenInPasses(s, Sort(s).passes)
  {
    RunSwapsAre(s, |s| - 1);
  }
}
