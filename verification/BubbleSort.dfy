/**
 bubble_sort of include/base/algorithm.h. It compares with <=, so that equal
 neighbours are swapped too; every pass scans the full range; it stops after a pass
 without a swap. The specification follows the code pass by pass; the theorems
 are in module BubbleSortTheorems.
 */
module BubbleSort {

  /** The vector after the first j comparisons of a pass. */
  function Inner(s: seq<int>, j: nat): (t: seq<int>)
    requires j < |s|
    ensures |t| == |s|
  {
    if j == 0 then s
    else
      var u := Inner(s, j - 1);
      if u[j] <= u[j - 1] then u[j - 1 := u[j]][j := u[j - 1]] else u
  }

  /** The swaps among these j comparisons. */
  function InnerSwaps(s: seq<int>, j: nat): (c: nat)
    requires j < |s|
    ensures c <= j
  {
    if j == 0 then 0
    else
      var u := Inner(s, j - 1);
      InnerSwaps(s, j - 1) + if u[j] <= u[j - 1] then 1 else 0
  }

  function Pass(s: seq<int>): (t: seq<int>)
    requires s != []
    ensures |t| == |s|
  {
    Inner(s, |s| - 1)
  }

  function PassSwaps(s: seq<int>): (c: nat)
    requires s != []
    ensures c <= |s| - 1
  {
    InnerSwaps(s, |s| - 1)
  }

  datatype Outcome = Outcome(v: seq<int>, swaps: nat, passes: nat)

  /** At most r more passes, ending after one without a swap. */
  function Run(s: seq<int>, r: nat): Outcome
    requires r > 0 ==> s != []
    decreases r
  {
    if r == 0 then Outcome(s, 0, 0)
    else
      var c := PassSwaps(s);
      if c == 0 then Outcome(Pass(s), 0, 1)
      else
        var rest := Run(Pass(s), r - 1);
        Outcome(rest.v, c + rest.swaps, 1 + rest.passes)
  }

  function Sort(s: seq<int>): Outcome {
    Run(s, if s == [] then 0 else |s| - 1)
  }

  /** passes counts the iterations of the outer loop. */
  method BubbleSort(a: array<int>) returns (result: int, ghost passes: nat)
    modifies a
    ensures a[..] == Sort(old(a[..])).v
    ensures result == Sort(old(a[..])).swaps
    ensures passes == Sort(old(a[..])).passes
  {
    ghost var start := a[..];
    var n := a.Length;
    result, passes := 0, 0;
    var i := 1;
    while i < n
      invariant 1 <= i && (n > 0 ==> i <= n)
      invariant n == 0 ==> a[..] == start == []
      invariant Sort(start).v == Run(a[..], if n == 0 then 0 else n - i).v
      invariant Sort(start).swaps == result + Run(a[..], if n == 0 then 0 else n - i).swaps
      invariant Sort(start).passes == passes + Run(a[..], if n == 0 then 0 else n - i).passes
    {
      ghost var u := a[..];
      ghost var before := result;
      var swapped := false;
      passes := passes + 1;
      var j := 0;
      assert a[..] == u;
      while j < n - 1
        invariant 0 <= j <= n - 1
        invariant a[..] == Inner(u, j)
        invariant result == before + InnerSwaps(u, j)
        invariant swapped <==> InnerSwaps(u, j) > 0
      {
        assert Inner(u, j)[j] == a[j] && Inner(u, j)[j + 1] == a[j + 1];
        if a[j + 1] <= a[j] {
          a[j], a[j + 1] := a[j + 1], a[j];
          swapped := true;
          result := result + 1;
        }
        assert a[..] == Inner(u, j + 1);
        j := j + 1;
      }
      if !swapped {
        break;
      }
      i := i + 1;
    }
  }
}
