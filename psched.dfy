/** Psched/Psched.c: processor scheduling. Tasks with integer workloads are
    assigned to nProcs processors by least workload (each task to the least
    loaded processor), best workload (to the processor it fills closest to
    the current maximum), the sorted-descending variants of both, and a
    backtracking search for the optimal maximum load. */
module Psched {
  import opened Common

  // ---------------------------------------------------------------------
  // Flags

  datatype Algorithm = Opt | Lw | Lwd | Bw | Bwd

  /** The command-line flag that selects an algorithm. */
  function Name(a: Algorithm): string {
    match a
    case Opt => "-opt"
    case Lw => "-lw"
    case Lwd => "-lwd"
    case Bw => "-bw"
    case Bwd => "-bwd"
  }

  /** isFlag */
  predicate IsFlag(input: string) {
    input == "-opt" || input == "-lw" || input == "-lwd" || input == "-bw" || input == "-bwd"
  }

  /** The algorithm applyFlag runs for a flag: the four explicit tests, and
      best workload decreasing for every other string. */
  function Selected(flag: string): Algorithm {
    if flag == "-opt" then Opt
    else if flag == "-lw" then Lw
    else if flag == "-bw" then Bw
    else if flag == "-lwd" then Lwd
    else Bwd
  }

  /** isFlag accepts exactly the five algorithm names, each flag selects
      the algorithm it names, and every other string falls to -bwd. */
  lemma FlagsNameAlgorithms(flag: string)
    ensures IsFlag(flag) <==> exists a :: Name(a) == flag
    ensures IsFlag(flag) ==> Name(Selected(flag)) == flag
    ensures !IsFlag(flag) ==> Selected(flag) == Bwd
    ensures forall a :: Selected(Name(a)) == a && IsFlag(Name(a))
  {
    if IsFlag(flag) {
      assert Name(Selected(flag)) == flag;
    }
  }

  // ---------------------------------------------------------------------
  // Specifications on sequences of loads

  function Sum(s: seq<int>): int {
    if s == [] then 0 else Sum(s[..|s| - 1]) + s[|s| - 1]
  }

  /** The largest element. */
  function MaxOf(s: seq<int>): int
    requires s != []
  {
    if |s| == 1 then s[0]
    else
      var m := MaxOf(s[..|s| - 1]);
      if s[|s| - 1] > m then s[|s| - 1] else m
  }

  /** MaxOf is an element that no element exceeds. */
  lemma {:induction false} MaxOfIsMax(s: seq<int>)
    requires s != []
    ensures MaxOf(s) in s && forall x :: x in s ==> x <= MaxOf(s)
  {
    if |s| > 1 {
      var p := s[..|s| - 1];
      MaxOfIsMax(p);
      assert forall x :: x in s ==> x in p || x == s[|s| - 1];
      var j :| 0 <= j < |p| && p[j] == MaxOf(p);
      assert s[j] == p[j];
    }
  }

  /** The lowest index holding the smallest element. */
  function ArgMin(s: seq<int>): (r: nat)
    requires s != []
    ensures r < |s|
  {
    if |s| == 1 then 0
    else
      var k := ArgMin(s[..|s| - 1]);
      if s[|s| - 1] < s[k] then |s| - 1 else k
  }

  /** ArgMin is the first index of a smallest element. */
  lemma {:induction false} ArgMinIsMin(s: seq<int>)
    requires s != []
    ensures forall i :: 0 <= i < |s| ==> s[ArgMin(s)] <= s[i]
    ensures forall i :: 0 <= i < ArgMin(s) ==> s[ArgMin(s)] < s[i]
  {
    if |s| > 1 {
      var p := s[..|s| - 1];
      ArgMinIsMin(p);
      assert forall i :: 0 <= i < |p| ==> p[i] == s[i];
    }
  }

  function Zeros(n: nat): (r: seq<int>)
    ensures |r| == n && forall i :: 0 <= i < n ==> r[i] == 0
  {
    if n == 0 then [] else Zeros(n - 1) + [0]
  }

  /** processors[k] += t */
  method AddLoad(processors: array<int>, k: int, t: int)
    requires 0 <= k < processors.Length
    modifies processors
    ensures processors[..] == old(processors[..])[k := old(processors[..])[k] + t]
  {
    processors[k] := processors[k] + t;
  }

  /** A processors array of n slots cleared by memset. */
  method Cleared(n: int) returns (a: array<int>)
    requires n >= 0
    ensures fresh(a) && a[..] == Zeros(n)
  {
    a := new int[n];
    for i := 0 to n
      invariant forall j :: 0 <= j < i ==> a[j] == 0
    {
      a[i] := 0;
    }
  }

  lemma {:induction false} SumZeros(n: nat)
    ensures Sum(Zeros(n)) == 0
  {
    if n > 0 {
      assert Zeros(n)[..n - 1] == Zeros(n - 1);
      SumZeros(n - 1);
    }
  }

  lemma {:induction false} SumAppend(s: seq<int>, t: seq<int>)
    ensures Sum(s + t) == Sum(s) + Sum(t)
    decreases |t|
  {
    if t != [] {
      assert (s + t)[..|s + t| - 1] == s + t[..|t| - 1];
      SumAppend(s, t[..|t| - 1]);
    } else {
      assert s + t == s;
    }
  }

  /** Adding v to slot k adds v to the total. */
  lemma SumUpdate(s: seq<int>, k: nat, v: int)
    requires k < |s|
    ensures Sum(s[k := s[k] + v]) == Sum(s) + v
  {
    assert s == s[..k] + [s[k]] + s[k + 1..];
    assert s[k := s[k] + v] == s[..k] + [s[k] + v] + s[k + 1..];
    SumAppend(s[..k] + [s[k]], s[k + 1..]);
    SumAppend(s[..k], [s[k]]);
    SumAppend(s[..k] + [s[k] + v], s[k + 1..]);
    SumAppend(s[..k], [s[k] + v]);
    assert Sum([s[k]]) == s[k] by { assert [s[k]][..0] == []; }
    assert Sum([s[k] + v]) == s[k] + v by { assert [s[k] + v][..0] == []; }
  }

  /** The largest of n loads is at least their average. */
  lemma {:induction false} MaxAtLeastAverage(s: seq<int>)
    requires s != []
    ensures MaxOf(s) * |s| >= Sum(s)
  {
    if |s| > 1 {
      var p := s[..|s| - 1];
      var m := MaxOf(s);
      MaxAtLeastAverage(p);
      MaxOfIsMax(s);
      MaxOfIsMax(p);
      assert MaxOf(p) <= m by {
        var j :| 0 <= j < |p| && p[j] == MaxOf(p);
        assert s[j] in s;
      }
      assert s[|s| - 1] <= m by { assert s[|s| - 1] in s; }
      MultiplyMonotone(MaxOf(p), m, |p|);
      assert m * |s| == m * |p| + m;
      assert Sum(s) == Sum(p) + s[|s| - 1];
    }
  }

  // ---------------------------------------------------------------------
  // The lower bound of optCore

  /** C's integer division, which truncates toward zero. */
  function CDiv(a: int, b: int): int
    requires b > 0
  {
    if a >= 0 then a / b else -((-a) / b)
  }

  /** C's remainder, which takes the sign of the dividend. */
  function CRem(a: int, b: int): int
    requires b > 0
  {
    a - CDiv(a, b) * b
  }

  /** sum / nProcs + (sum % nProcs != 0), with C's division. */
  function LowBound(total: int, nProcs: int): int
    requires nProcs > 0
  {
    CDiv(total, nProcs) + if CRem(total, nProcs) != 0 then 1 else 0
  }

  /** For a total that is not negative, the bound is the ceiling of the
      average load. */
  lemma LowBoundIsCeiling(total: int, nProcs: int)
    requires total >= 0 && nProcs > 0
    ensures LowBound(total, nProcs) * nProcs >= total
    ensures (LowBound(total, nProcs) - 1) * nProcs < total
  {
  }

  /** No assignment of a non-negative total to nProcs processors has a
      maximum load below the bound. */
  lemma {:induction false} LowBoundBelowMax(loads: seq<int>)
    requires loads != [] && Sum(loads) >= 0
    ensures MaxOf(loads) >= LowBound(Sum(loads), |loads|)
  {
    MaxAtLeastAverage(loads);
    LowBoundIsCeiling(Sum(loads), |loads|);
    AtLeastCeiling(MaxOf(loads), LowBound(Sum(loads), |loads|), |loads|, Sum(loads));
  }

  /** An integer whose n-fold is at least total is at least any b whose
      predecessor's n-fold is below total. */
  lemma AtLeastCeiling(m: int, b: int, n: int, total: int)
    requires n > 0 && m * n >= total && (b - 1) * n < total
    ensures m >= b
  {
    MultiplyMonotone(m, b - 1, n);
  }

  lemma MultiplyMonotone(a: int, b: int, n: int)
    requires n > 0
    ensures a <= b ==> a * n <= b * n
  {
  }

  // ---------------------------------------------------------------------
  // Assignments

  /** Every step of the plan names one of the n processors. */
  predicate ValidPlan(plan: seq<int>, n: nat) {
    forall p :: p in plan ==> 0 <= p < n
  }


  /** The loads after task ts[j] is added to processor plan[j], for each j. */
  function Assign(loads: seq<int>, ts: seq<int>, plan: seq<int>): (r: seq<int>)
    requires |ts| == |plan| && ValidPlan(plan, |loads|)
    ensures |r| == |loads|
    decreases |ts|
  {
    if ts == [] then loads
    else
      assert plan[0] in plan && forall x :: x in plan[1..] ==> x in plan;
      Assign(loads[plan[0] := loads[plan[0]] + ts[0]], ts[1..], plan[1..])
  }

  /** Assigning a first task to processor k and then the rest. */
  lemma AssignFirst(loads: seq<int>, t: int, ts: seq<int>, k: int, plan: seq<int>)
    requires |ts| == |plan| && ValidPlan(plan, |loads|) && 0 <= k < |loads|
    ensures ValidPlan([k] + plan, |loads|)
    ensures Assign(loads, [t] + ts, [k] + plan) == Assign(loads[k := loads[k] + t], ts, plan)
  {
    var ts', plan' := [t] + ts, [k] + plan;
    forall p | p in plan' ensures 0 <= p < |loads| {
      if p != k { assert p in plan; }
    }
    assert ts'[0] == t && ts'[1..] == ts;
    assert plan'[0] == k && plan'[1..] == plan;
  }

  /** AssignFirst for the tasks from index cur on. */
  lemma AssignAt(loads: seq<int>, tasks: seq<int>, cur: nat, k: int, plan: seq<int>)
    requires cur < |tasks| && |plan| == |tasks| - cur - 1 && ValidPlan(plan, |loads|) && 0 <= k < |loads|
    ensures ValidPlan([k] + plan, |loads|)
    ensures Assign(loads, tasks[cur..], [k] + plan) == Assign(loads[k := loads[k] + tasks[cur]], tasks[cur + 1..], plan)
  {
    assert tasks[cur..] == [tasks[cur]] + tasks[cur + 1..];
    AssignFirst(loads, tasks[cur], tasks[cur + 1..], k, plan);
  }

  lemma {:induction false} AssignSum(loads: seq<int>, ts: seq<int>, plan: seq<int>)
    requires |ts| == |plan| && ValidPlan(plan, |loads|)
    ensures Sum(Assign(loads, ts, plan)) == Sum(loads) + Sum(ts)
    decreases |ts|
  {
    if ts != [] {
      assert plan[0] in plan && forall x :: x in plan[1..] ==> x in plan;
      SumUpdate(loads, plan[0], ts[0]);
      AssignSum(loads[plan[0] := loads[plan[0]] + ts[0]], ts[1..], plan[1..]);
      assert ts == [ts[0]] + ts[1..];
      SumAppend([ts[0]], ts[1..]);
      assert Sum([ts[0]]) == ts[0] by { assert [ts[0]][..0] == []; }
    }
  }

  // ---------------------------------------------------------------------
  // The array loops

  /** argmin: the lowest index of a smallest of the first n values. */
  method Argmin(values: array<int>, n: int) returns (r: int)
    requires 0 < n <= values.Length
    ensures 0 <= r < n && r == ArgMin(values[..n])
  {
    var min := values[0];
    r := 0;
    assert values[..1][..0] == [];
    for i := 1 to n
      invariant r == ArgMin(values[..i]) && min == values[r]
    {
      assert values[..i + 1][..i] == values[..i];
      if values[i] < min {
        min := values[i];
        r := i;
      }
    }
    assert values[..n] == values[..n];
  }

  /** max: the largest of the first n values. */
  method Max(values: array<int>, n: int) returns (r: int)
    requires 0 < n <= values.Length
    ensures r == MaxOf(values[..n])
  {
    r := values[0];
    for i := 0 to n
      invariant (i == 0 && r == values[0]) || (i > 0 && r == MaxOf(values[..i]))
    {
      assert values[..i + 1][..i] == values[..i];
      if values[i] > r {
        r := values[i];
      }
    }
    assert forall i :: 0 <= i < n ==> values[i] in values[..n];
  }

  /** sum: the total of the first n values. */
  method SumOf(values: array<int>, n: int) returns (r: int)
    requires 0 <= n <= values.Length
    ensures r == Sum(values[..n])
  {
    r := 0;
    for i := 0 to n
      invariant r == Sum(values[..i])
    {
      assert values[..i + 1][..i] == values[..i];
      r := r + values[i];
    }
  }

  /** lowerSame(values, j): some slot before j holds the value of slot j. */
  method LowerSame(values: array<int>, j: int) returns (same: bool)
    requires 0 <= j < values.Length
    ensures same <==> exists i :: 0 <= i < j && values[i] == values[j]
  {
    same := false;
    var i := 0;
    while i < j && !same
      invariant 0 <= i <= j
      invariant same <==> exists m :: 0 <= m < i && values[m] == values[j]
    {
      if values[i] == values[j] {
        same := true;
      }
      i := i + 1;
    }
  }

  /** A processor the task fits on: its load plus the task stays within
      curMax and is positive. */
  predicate Fits(load: int, task: int, curMax: int) {
    load + task <= curMax && load + task > 0
  }

  /** The scan of argmbw over s: the first index whose fitting load plus
      task is largest, or -1 when the task fits nowhere. */
  function BestFit(s: seq<int>, task: int, curMax: int): (r: int)
    ensures -1 <= r < |s|
  {
    if s == [] then -1
    else
      var k := BestFit(s[..|s| - 1], task, curMax);
      var last := s[|s| - 1];
      if Fits(last, task, curMax) && (k == -1 || last > s[k]) then |s| - 1 else k
  }

  /** BestFit is -1 exactly when the task fits nowhere, and otherwise the
      first index of a largest load the task fits on. */
  lemma {:induction false} BestFitIsBest(s: seq<int>, task: int, curMax: int)
    ensures var r := BestFit(s, task, curMax);
      && (r == -1 <==> forall i {:trigger Fits(s[i], task, curMax)} :: 0 <= i < |s| ==> !Fits(s[i], task, curMax))
      && (r >= 0 ==>
        && Fits(s[r], task, curMax)
        && (forall i {:trigger Fits(s[i], task, curMax)} :: 0 <= i < |s| && Fits(s[i], task, curMax) ==> s[i] <= s[r])
        && (forall i {:trigger Fits(s[i], task, curMax)} :: 0 <= i < r && Fits(s[i], task, curMax) ==> s[i] < s[r]))
  {
    if s != [] {
      var p := s[..|s| - 1];
      BestFitIsBest(p, task, curMax);
      assert forall i :: 0 <= i < |p| ==> p[i] == s[i];
    }
  }

  /** The processor argmbw picks: the best fit, or argmin when the task fits
      nowhere. */
  function BestWorkload(s: seq<int>, task: int, curMax: int): (r: nat)
    requires s != []
    ensures r < |s|
  {
    var k := BestFit(s, task, curMax);
    if k != -1 then k else ArgMin(s)
  }

  /** The choice argmbw makes: among the processors the task fits on (the
      new load stays within curMax and is positive), the first with the
      largest load; when it fits on none, the first least loaded one. */
  lemma BestWorkloadPicks(s: seq<int>, task: int, curMax: int)
    requires s != []
    ensures var r := BestWorkload(s, task, curMax);
      && ((exists i {:trigger Fits(s[i], task, curMax)} :: 0 <= i < |s| && Fits(s[i], task, curMax)) ==>
        && Fits(s[r], task, curMax)
        && (forall i {:trigger Fits(s[i], task, curMax)} :: 0 <= i < |s| && Fits(s[i], task, curMax) ==> s[i] <= s[r])
        && (forall i {:trigger Fits(s[i], task, curMax)} :: 0 <= i < r && Fits(s[i], task, curMax) ==> s[i] < s[r]))
      && ((forall i {:trigger Fits(s[i], task, curMax)} :: 0 <= i < |s| ==> !Fits(s[i], task, curMax)) ==>
        && (forall i :: 0 <= i < |s| ==> s[r] <= s[i])
        && (forall i :: 0 <= i < r ==> s[r] < s[i]))
  {
    BestFitIsBest(s, task, curMax);
    ArgMinIsMin(s);
  }

  /** argmbw */
  method Argmbw(processors: array<int>, n: int, task: int, curMax: int) returns (r: int)
    requires 0 < n <= processors.Length
    ensures 0 <= r < n && r == BestWorkload(processors[..n], task, curMax)
  {
    var bestWork := 0;
    var bwIndex := -1;
    for i := 0 to n
      invariant bwIndex == BestFit(processors[..i], task, curMax)
      invariant bwIndex == -1 ==> bestWork == 0
      invariant bwIndex != -1 ==> bestWork == processors[bwIndex] + task && bestWork > 0
    {
      assert processors[..i + 1][..i] == processors[..i];
      if processors[i] + task <= curMax && processors[i] + task > bestWork {
        bestWork := processors[i] + task;
        bwIndex := i;
      }
    }
    if bwIndex != -1 {
      r := bwIndex;
    } else {
      r := Argmin(processors, n);
    }
  }

  // ---------------------------------------------------------------------
  // sort

  predicate Descending(s: seq<int>) {
    forall i, j :: 0 <= i < j < |s| ==> s[i] >= s[j]
  }

  predicate DescendingUpTo(s: seq<int>, n: nat) {
    forall i, j :: 0 <= i < j < n && j < |s| ==> s[i] >= s[j]
  }

  /** sort: copies the first n values into sorted and sorts them in
      descending order by insertion. */
  method Sort(values: array<int>, sorted: array<int>, n: int)
    requires values != sorted && 0 <= n <= values.Length && n <= sorted.Length
    modifies sorted
    ensures Descending(sorted[..n])
    ensures multiset(sorted[..n]) == multiset(values[..n])
    ensures sorted[n..] == old(sorted[n..])
  {
    for k := 0 to n
      invariant sorted[..k] == values[..k]
      invariant sorted[n..] == old(sorted[n..])
    {
      sorted[k] := values[k];
    }
    ghost var copy := sorted[..];
    var i := 1;
    while i < n
      invariant 1 <= i || n == 0
      invariant DescendingUpTo(sorted[..], i)
      invariant multiset(sorted[..]) == multiset(copy)
      invariant sorted[n..] == copy[n..]
    {
      Rise(sorted, i);
      i := i + 1;
    }
    assert Descending(sorted[..n]);
    SamePrefixMultiset(sorted[..], copy, n);
    assert copy[..n] == values[..n];
  }

  /** Two descending sequences with the same values are equal: the order
      sort produces is determined by the tasks alone. */
  lemma {:induction false} DescendingUnique(a: seq<int>, b: seq<int>)
    requires Descending(a) && Descending(b) && multiset(a) == multiset(b)
    ensures a == b
  {
    if a != [] {
      HeadIsGreatest(a, a[0]);
      assert b != [];
      HeadIsGreatest(b, a[0]);
      HeadIsGreatest(a, b[0]);
      SameTails(a, b);
      DescendingUnique(a[1..], b[1..]);
      assert a == [a[0]] + a[1..] && b == [b[0]] + b[1..];
    }
  }

  /** The head of a descending sequence is at least each of its values. */
  lemma HeadIsGreatest(s: seq<int>, x: int)
    requires Descending(s) && x in multiset(s)
    ensures s != [] && s[0] >= x && Descending(s[1..]) && s[0] in multiset(s)
  {
    var i :| 0 <= i < |s| && s[i] == x;
  }

  /** The inner loop of sort: the value at i moves left past every smaller
      neighbour. The source tests the neighbour before the bound; the model
      tests the bound first. */
  method Rise(sorted: array<int>, i: int)
    requires 0 <= i < sorted.Length && DescendingUpTo(sorted[..], i)
    modifies sorted
    ensures DescendingUpTo(sorted[..], i + 1)
    ensures multiset(sorted[..]) == multiset(old(sorted[..]))
    ensures sorted[i + 1..] == old(sorted[i + 1..])
  {
    var element := sorted[i];
    var j := i;
    while j > 0 && sorted[j] > sorted[j - 1]
      invariant 0 <= j <= i
      invariant Rising(sorted[..], i, j, element)
      invariant multiset(sorted[..]) == multiset(old(sorted[..]))
      invariant sorted[i + 1..] == old(sorted[i + 1..])
    {
      ghost var before := sorted[..];
      sorted[j] := sorted[j - 1];
      sorted[j - 1] := element;
      assert sorted[..] == before[j := before[j - 1]][j - 1 := element];
      RisingStep(before, i, j, element);
      j := j - 1;
    }
    RisingDone(sorted[..], i, j, element);
  }

  /** The state of the inner loop of sort: the value being moved sits at j,
      the other values up to i are in descending order, and those after j
      are smaller than it. */
  ghost predicate Rising(s: seq<int>, i: int, j: int, element: int)
    requires 0 <= j <= i < |s|
  {
    && s[j] == element
    && (forall a, b :: 0 <= a < b <= i && a != j && b != j ==> s[a] >= s[b])
    && (forall b :: j < b <= i ==> element > s[b])
  }

  /** Moving the value one place left keeps the loop's state and the values. */
  lemma RisingStep(s: seq<int>, i: int, j: int, element: int)
    requires 0 < j <= i < |s| && Rising(s, i, j, element) && s[j] > s[j - 1]
    ensures Rising(s[j := s[j - 1]][j - 1 := element], i, j - 1, element)
    ensures multiset(s[j := s[j - 1]][j - 1 := element]) == multiset(s)
  {
    var t := s[j := s[j - 1]][j - 1 := element];
    forall a, b | 0 <= a < b <= i && a != j - 1 && b != j - 1
      ensures t[a] >= t[b]
    {
      if a == j {
        assert t[a] == s[j - 1];
      } else if b == j {
        assert t[b] == s[j - 1] && t[a] == s[a];
      }
    }
  }

  /** The inner loop stops with the first i + 1 values in descending order. */
  lemma RisingDone(s: seq<int>, i: int, j: int, element: int)
    requires 0 <= j <= i < |s| && Rising(s, i, j, element) && (j == 0 || s[j] <= s[j - 1])
    ensures DescendingUpTo(s, i + 1)
  {
    forall a, b | 0 <= a < b < i + 1 && b < |s|
      ensures s[a] >= s[b]
    {
      if a == j {
        assert s[b] < element;
      } else if b == j && a < j - 1 {
        assert s[a] >= s[j - 1];
      }
    }
  }

  // ---------------------------------------------------------------------
  // Least workload and best workload

  /** The loads least workload produces: each task in turn goes to the
      lowest-indexed least loaded processor. */
  function LwLoads(loads: seq<int>, ts: seq<int>): (r: seq<int>)
    requires loads != []
    ensures |r| == |loads|
  {
    if ts == [] then loads else LwStep(LwLoads(loads, ts[..|ts| - 1]), ts[|ts| - 1])
  }

  /** One iteration of lwCore's loop. */
  function LwStep(l: seq<int>, t: int): (r: seq<int>)
    requires l != []
    ensures |r| == |l|
  {
    l[ArgMin(l) := l[ArgMin(l)] + t]
  }

  lemma LwNext(loads: seq<int>, ts: seq<int>, t: int)
    requires loads != []
    ensures LwLoads(loads, ts + [t]) == LwStep(LwLoads(loads, ts), t)
  {
    assert (ts + [t])[..|ts|] == ts;
  }

  /** Least workload hands out all the work. */
  lemma {:induction false} LwSum(loads: seq<int>, ts: seq<int>)
    requires loads != []
    ensures Sum(LwLoads(loads, ts)) == Sum(loads) + Sum(ts)
  {
    if ts != [] {
      LwSum(loads, ts[..|ts| - 1]);
      var l := LwLoads(loads, ts[..|ts| - 1]);
      SumUpdate(l, ArgMin(l), ts[|ts| - 1]);
      assert LwLoads(loads, ts) == LwStep(l, ts[|ts| - 1]);
    }
  }

  /** The body of lwCore's loop: one task goes to argmin's processor. */
  method LwAssign(processors: array<int>, task: int)
    requires processors.Length > 0
    modifies processors
    ensures processors[..] == LwStep(old(processors[..]), task)
  {
    assert processors[..processors.Length] == processors[..];
    var k := Argmin(processors, processors.Length);
    AddLoad(processors, k, task);
  }

  /** lwCore: the maximum load after least workload assignment. */
  method LwCore(tasks: array<int>, nTasks: int, nProcs: int) returns (r: int)
    requires 0 <= nTasks <= tasks.Length && nProcs > 0
    ensures r == MaxOf(LwLoads(Zeros(nProcs), tasks[..nTasks]))
  {
    var processors := Cleared(nProcs);
    for i := 0 to nTasks
      invariant processors[..] == LwLoads(Zeros(nProcs), tasks[..i])
    {
      LwAssign(processors, tasks[i]);
      LwNext(Zeros(nProcs), tasks[..i], tasks[i]);
      assert tasks[..i + 1] == tasks[..i] + [tasks[i]];
    }
    r := Max(processors, nProcs);
    assert processors[..nProcs] == processors[..];
  }

  /** The least workload maximum load is at least the bound optCore uses. */
  lemma LwAboveBound(ts: seq<int>, nProcs: nat)
    requires nProcs > 0 && Sum(ts) >= 0
    ensures MaxOf(LwLoads(Zeros(nProcs), ts)) >= LowBound(Sum(ts), nProcs)
    ensures MaxOf(LwLoads(Zeros(nProcs), ts)) * nProcs >= Sum(ts)
  {
    LwSum(Zeros(nProcs), ts);
    SumZeros(nProcs);
    LowBoundBelowMax(LwLoads(Zeros(nProcs), ts));
    MaxAtLeastAverage(LwLoads(Zeros(nProcs), ts));
  }

  /** The state of best workload: the loads and the largest load so far. */
  datatype BwState = BwState(loads: seq<int>, curMax: int)

  /** Best workload: each task goes to the processor argmbw picks with the
      current curMax, which then grows to that processor's load if it is
      larger. */
  function BwRun(nProcs: nat, ts: seq<int>): (r: BwState)
    requires nProcs > 0
    ensures |r.loads| == nProcs
  {
    if ts == [] then BwState(Zeros(nProcs), 0)
    else BwStep(BwRun(nProcs, ts[..|ts| - 1]), ts[|ts| - 1])
  }

  /** One iteration of bwCore's loop. */
  function BwStep(st: BwState, t: int): (r: BwState)
    requires st.loads != []
    ensures |r.loads| == |st.loads|
  {
    var k := BestWorkload(st.loads, t, st.curMax);
    var loads := st.loads[k := st.loads[k] + t];
    BwState(loads, if loads[k] > st.curMax then loads[k] else st.curMax)
  }

  lemma BwNext(nProcs: nat, ts: seq<int>, t: int)
    requires nProcs > 0
    ensures BwRun(nProcs, ts + [t]) == BwStep(BwRun(nProcs, ts), t)
  {
    assert (ts + [t])[..|ts|] == ts;
  }

  /** Best workload hands out all the work. */
  lemma {:induction false} BwSum(nProcs: nat, ts: seq<int>)
    requires nProcs > 0
    ensures Sum(BwRun(nProcs, ts).loads) == Sum(ts)
  {
    if ts == [] {
      SumZeros(nProcs);
    } else {
      var p := ts[..|ts| - 1];
      BwSum(nProcs, p);
      var st := BwRun(nProcs, p);
      var t := ts[|ts| - 1];
      var k := BestWorkload(st.loads, t, st.curMax);
      SumUpdate(st.loads, k, t);
      assert BwRun(nProcs, ts).loads == BwStep(st, t).loads == st.loads[k := st.loads[k] + t];
      assert Sum(ts) == Sum(p) + t;
    }
  }

  /** curMax never falls below 0 or below any load. */
  lemma {:induction false} BwCurMaxBounds(nProcs: nat, ts: seq<int>)
    requires nProcs > 0
    ensures BwRun(nProcs, ts).curMax >= 0
    ensures forall x :: x in BwRun(nProcs, ts).loads ==> x <= BwRun(nProcs, ts).curMax
  {
    if ts != [] {
      var p := ts[..|ts| - 1];
      BwCurMaxBounds(nProcs, p);
      var st := BwRun(nProcs, p);
      var t := ts[|ts| - 1];
      var k := BestWorkload(st.loads, t, st.curMax);
      var loads := st.loads[k := st.loads[k] + t];
      assert BwRun(nProcs, ts).loads == loads;
      forall x | x in loads
        ensures x <= BwRun(nProcs, ts).curMax
      {
        var j :| 0 <= j < |loads| && loads[j] == x;
        if j != k {
          assert st.loads[j] in st.loads;
        }
      }
    }
  }

  /** A step with a task that is not negative keeps curMax equal to the
      largest load. */
  lemma BwStepExact(st: BwState, t: int)
    requires st.loads != [] && t >= 0 && st.curMax == MaxOf(st.loads)
    ensures BwStep(st, t).curMax == MaxOf(BwStep(st, t).loads)
  {
    var k := BestWorkload(st.loads, t, st.curMax);
    var loads := st.loads[k := st.loads[k] + t];
    assert BwStep(st, t).loads == loads;
    var m := BwStep(st, t).curMax;
    MaxOfIsMax(st.loads);
    MaxOfIsMax(loads);
    assert m in loads by {
      if loads[k] > st.curMax {
        assert loads[k] in loads;
      } else {
        var j :| 0 <= j < |st.loads| && st.loads[j] == st.curMax;
        if j != k {
          assert loads[j] in loads;
        } else {
          assert loads[k] in loads;
        }
      }
    }
    forall x | x in loads
      ensures x <= m
    {
      var j :| 0 <= j < |loads| && loads[j] == x;
      if j != k {
        assert st.loads[j] in st.loads;
      }
    }
  }

  /** With no negative task, curMax is the largest load. */
  lemma {:induction false} BwCurMaxExact(nProcs: nat, ts: seq<int>)
    requires nProcs > 0 && forall i :: 0 <= i < |ts| ==> ts[i] >= 0
    ensures BwRun(nProcs, ts).curMax == MaxOf(BwRun(nProcs, ts).loads)
  {
    if ts == [] {
      var m := MaxOf(Zeros(nProcs));
      MaxOfIsMax(Zeros(nProcs));
      var i :| 0 <= i < nProcs && Zeros(nProcs)[i] == m;
    } else {
      var p := ts[..|ts| - 1];
      assert forall i :: 0 <= i < |p| ==> p[i] >= 0 by {
        forall i | 0 <= i < |p| ensures p[i] >= 0 { assert p[i] == ts[i]; }
      }
      BwCurMaxExact(nProcs, p);
      BwStepExact(BwRun(nProcs, p), ts[|ts| - 1]);
    }
  }

  /** The body of bwCore's loop: one task goes where argmbw says. */
  method BwAssign(processors: array<int>, task: int, curMax: int) returns (newMax: int)
    requires processors.Length > 0
    modifies processors
    ensures BwState(processors[..], newMax) == BwStep(BwState(old(processors[..]), curMax), task)
  {
    ghost var st := BwState(processors[..], curMax);
    assert processors[..processors.Length] == st.loads;
    var curProc := Argmbw(processors, processors.Length, task, curMax);
    AddLoad(processors, curProc, task);
    newMax := curMax;
    if processors[curProc] > curMax {
      newMax := processors[curProc];
    }
  }

  /** bwCore: the maximum load after best workload assignment. */
  method BwCore(tasks: array<int>, nTasks: int, nProcs: int) returns (r: int)
    requires 0 <= nTasks <= tasks.Length && nProcs > 0
    ensures r == MaxOf(BwRun(nProcs, tasks[..nTasks]).loads)
  {
    var curMax := 0;
    var processors := Cleared(nProcs);
    for i := 0 to nTasks
      invariant BwRun(nProcs, tasks[..i]) == BwState(processors[..], curMax)
    {
      curMax := BwAssign(processors, tasks[i], curMax);
      BwNext(nProcs, tasks[..i], tasks[i]);
      assert tasks[..i + 1] == tasks[..i] + [tasks[i]];
    }
    r := Max(processors, nProcs);
    assert processors[..nProcs] == processors[..];
  }

  // ---------------------------------------------------------------------
  // The plans optBT tries, and why skipping the others loses nothing

  predicate NonNegative(s: seq<int>) {
    forall k :: 0 <= k < |s| ==> s[k] >= 0
  }

  /** Some processor before j carries the load of processor j (heuristic E
      then skips j). */
  predicate HasLowerSame(loads: seq<int>, j: int) {
    0 <= j < |loads| && exists k :: 0 <= k < j && loads[k] == loads[j]
  }

  /** The plans optBT tries from loads after prevTask went to prevProc: at
      every step heuristic D (a task equal to the one before goes to no
      lower processor than it) and heuristic E (no lower processor has the
      same load) both let the step through. */
  ghost predicate Allowed(loads: seq<int>, ts: seq<int>, prevTask: int, prevProc: int, plan: seq<int>)
    decreases |ts|
  {
    && |plan| == |ts|
    && (ts != [] ==>
      && 0 <= plan[0] < |loads|
      && (ts[0] != prevTask || plan[0] >= prevProc)
      && !HasLowerSame(loads, plan[0])
      && Allowed(loads[plan[0] := loads[plan[0]] + ts[0]], ts[1..], ts[0], plan[0], plan[1..]))
  }

  /** r is at most the maximum load of every allowed plan whose first step
      goes to a processor below `below`. */
  ghost predicate Beats(r: int, loads: seq<int>, ts: seq<int>, prevTask: int, prevProc: int, below: int) {
    && loads != []
    && forall q :: Allowed(loads, ts, prevTask, prevProc, q) && ValidPlan(q, |loads|) && (q == [] || q[0] < below) ==>
      r <= MaxOf(Assign(loads, ts, q))
  }

  /** Adding tasks that are not negative lowers no load, so not the
      maximum either. */
  lemma {:induction false} AssignKeepsMax(loads: seq<int>, ts: seq<int>, plan: seq<int>)
    requires loads != [] && |ts| == |plan| && ValidPlan(plan, |loads|) && NonNegative(ts)
    ensures MaxOf(Assign(loads, ts, plan)) >= MaxOf(loads)
    decreases |ts|
  {
    if ts != [] {
      assert plan[0] in plan && forall x :: x in plan[1..] ==> x in plan;
      var next := loads[plan[0] := loads[plan[0]] + ts[0]];
      MaxOfIsMax(loads);
      MaxOfIsMax(next);
      var k :| 0 <= k < |loads| && loads[k] == MaxOf(loads);
      assert next[k] in next;
      assert NonNegative(ts[1..]) by {
        forall m | 0 <= m < |ts[1..]| ensures ts[1..][m] >= 0 {
          assert ts[1..][m] == ts[m + 1];
        }
      }
      AssignKeepsMax(next, ts[1..], plan[1..]);
    }
  }

  /** A value no greater than the current maximum load beats every plan,
      when no task is negative. */
  lemma BeatsBelowMax(r: int, loads: seq<int>, ts: seq<int>, prevTask: int, prevProc: int, below: int)
    requires loads != [] && NonNegative(ts) && r <= MaxOf(loads)
    ensures Beats(r, loads, ts, prevTask, prevProc, below)
  {
    forall q | Allowed(loads, ts, prevTask, prevProc, q) && ValidPlan(q, |loads|) && (q == [] || q[0] < below)
      ensures r <= MaxOf(Assign(loads, ts, q))
    {
      AssignKeepsMax(loads, ts, q);
    }
  }

  /** Before the first processor is tried there is no plan to beat. */
  lemma BeatsNone(r: int, loads: seq<int>, ts: seq<int>, prevTask: int, prevProc: int)
    requires loads != [] && ts != []
    ensures Beats(r, loads, ts, prevTask, prevProc, 0)
  {
    forall q | Allowed(loads, ts, prevTask, prevProc, q) && ValidPlan(q, |loads|)
      ensures q != [] && q[0] >= 0
    {
      assert q[0] in q;
    }
  }

  /** One turn of optBT's loop: processor i is either skipped by heuristic D
      or E, or its branch result b beats every allowed plan through i. */
  lemma BeatsNext(best: int, b: int, loads: seq<int>, ts: seq<int>, prevTask: int, prevProc: int, i: int)
    requires ts != [] && 0 <= i < |loads|
    requires Beats(best, loads, ts, prevTask, prevProc, i) && b <= best
    requires (ts[0] != prevTask || i >= prevProc) && !HasLowerSame(loads, i) ==>
      Beats(b, loads[i := loads[i] + ts[0]], ts[1..], ts[0], i, |loads|)
    ensures Beats(b, loads, ts, prevTask, prevProc, i + 1)
  {
    forall q | Allowed(loads, ts, prevTask, prevProc, q) && ValidPlan(q, |loads|) && (q == [] || q[0] < i + 1)
      ensures b <= MaxOf(Assign(loads, ts, q))
    {
      if q[0] == i {
        assert forall x :: x in q[1..] ==> x in q;
        var next := loads[i := loads[i] + ts[0]];
        assert Allowed(next, ts[1..], ts[0], i, q[1..]);
        assert Assign(loads, ts, q) == Assign(next, ts[1..], q[1..]);
      }
    }
  }

  function Pow(n: nat, k: nat): (r: nat)
    ensures n > 0 ==> r > 0
  {
    if k == 0 then 1 else n * Pow(n, k - 1)
  }

  /** The plan read as a number in base n, its first step the most
      significant digit: a plan that is lexicographically smaller ranks
      lower. */
  function Rank(plan: seq<int>, n: nat): int
    requires ValidPlan(plan, n)
  {
    if plan == [] then 0
    else
      assert forall x :: x in plan[1..] ==> x in plan;
      plan[0] * Pow(n, |plan| - 1) + Rank(plan[1..], n)
  }

  lemma {:induction false} RankBounds(plan: seq<int>, n: nat)
    requires ValidPlan(plan, n)
    ensures 0 <= Rank(plan, n) < Pow(n, |plan|)
  {
    if plan != [] {
      assert plan[0] in plan && forall x :: x in plan[1..] ==> x in plan;
      RankBounds(plan[1..], n);
      DigitBound(plan[0], n, Pow(n, |plan| - 1), Rank(plan[1..], n));
    }
  }

  /** A digit below the base followed by a rest below the place value stays
      below the next place value. */
  lemma DigitBound(h: int, n: int, p: int, rest: int)
    requires 0 <= h < n && 0 <= rest < p
    ensures 0 <= h * p + rest < n * p
  {
    MultiplyMonotone(0, h, p);
    MultiplyMonotone(h + 1, n, p);
    assert (h + 1) * p == h * p + p;
  }

  /** A plan whose first step is lower ranks lower, whatever follows. */
  lemma RankHeadLess(a: seq<int>, b: seq<int>, n: nat)
    requires ValidPlan(a, n) && ValidPlan(b, n) && |a| == |b| > 0 && a[0] < b[0]
    ensures Rank(a, n) < Rank(b, n)
  {
    assert forall x :: x in a[1..] ==> x in a;
    assert forall x :: x in b[1..] ==> x in b;
    assert a[0] in a && b[0] in b;
    var p := Pow(n, |a| - 1);
    RankBounds(a[1..], n);
    RankBounds(b[1..], n);
    DigitLess(a[0], b[0], p, Rank(a[1..], n), Rank(b[1..], n));
  }

  /** A lower digit wins whatever the rests below the place value. */
  lemma DigitLess(h: int, g: int, p: int, ra: int, rb: int)
    requires 0 <= h < g && 0 <= ra < p && 0 <= rb < p
    ensures h * p + ra < g * p + rb
  {
    MultiplyMonotone(h + 1, g, p);
    assert (h + 1) * p == h * p + p;
  }

  function Swapped(p: int, i: int, j: int): int {
    if p == i then j else if p == j then i else p
  }

  /** The plan with processors i and j exchanged. */
  function SwapPlan(plan: seq<int>, i: int, j: int): (r: seq<int>)
    ensures |r| == |plan| && forall k :: 0 <= k < |plan| ==> r[k] == Swapped(plan[k], i, j)
  {
    seq(|plan|, k requires 0 <= k < |plan| => Swapped(plan[k], i, j))
  }

  /** The loads with slots i and j exchanged. */
  function SwapSlots(s: seq<int>, i: int, j: int): (r: seq<int>)
    requires 0 <= i < |s| && 0 <= j < |s|
    ensures |r| == |s| && forall k :: 0 <= k < |s| ==> r[k] == s[Swapped(k, i, j)]
  {
    s[i := s[j]][j := s[i]]
  }

  /** Exchanging two processors throughout a plan exchanges their final
      loads. */
  lemma {:induction false} AssignSwap(loads: seq<int>, ts: seq<int>, plan: seq<int>, i: int, j: int)
    requires |ts| == |plan| && ValidPlan(plan, |loads|) && 0 <= i < |loads| && 0 <= j < |loads|
    ensures ValidPlan(SwapPlan(plan, i, j), |loads|)
    ensures Assign(SwapSlots(loads, i, j), ts, SwapPlan(plan, i, j)) == SwapSlots(Assign(loads, ts, plan), i, j)
    decreases |ts|
  {
    var sp := SwapPlan(plan, i, j);
    forall x | x in sp ensures 0 <= x < |loads| {
      var k :| 0 <= k < |sp| && sp[k] == x;
      assert plan[k] in plan;
    }
    if ts != [] {
      assert plan[0] in plan && forall x :: x in plan[1..] ==> x in plan;
      var p, p' := plan[0], sp[0];
      var next := loads[p := loads[p] + ts[0]];
      var sl := SwapSlots(loads, i, j);
      assert sl[p' := sl[p'] + ts[0]] == SwapSlots(next, i, j);
      assert sp[1..] == SwapPlan(plan[1..], i, j);
      AssignSwap(next, ts[1..], plan[1..], i, j);
    }
  }

  /** Exchanging two slots keeps the maximum load. */
  lemma MaxOfSwap(s: seq<int>, i: int, j: int)
    requires 0 <= i < |s| && 0 <= j < |s|
    ensures MaxOf(SwapSlots(s, i, j)) == MaxOf(s)
  {
    var t := SwapSlots(s, i, j);
    assert forall k :: 0 <= k < |s| ==> t[Swapped(k, i, j)] == s[k];
    MaxOfIsMax(s);
    MaxOfIsMax(t);
    assert forall x :: x in t ==> x in s;
    assert forall x :: x in s ==> x in t by {
      forall x | x in s ensures x in t {
        var k :| 0 <= k < |s| && s[k] == x;
        assert t[Swapped(k, i, j)] == x;
      }
    }
  }

  /** Two equal tasks in a row may trade processors without changing the
      final loads. */
  lemma AssignTwin(loads: seq<int>, t: int, a: int, b: int, ts: seq<int>, plan: seq<int>)
    requires |ts| == |plan| && ValidPlan(plan, |loads|) && 0 <= a < |loads| && 0 <= b < |loads|
    ensures ValidPlan([a, b] + plan, |loads|) && ValidPlan([b, a] + plan, |loads|)
    ensures Assign(loads, [t, t] + ts, [b, a] + plan) == Assign(loads, [t, t] + ts, [a, b] + plan)
  {
    AssignTwo(loads, t, t, a, b, ts, plan);
    AssignTwo(loads, t, t, b, a, ts, plan);
    AddCommutes(loads, a, b, t);
  }

  /** Assign, unfolded over its first two steps. */
  lemma {:induction false} AssignTwo(loads: seq<int>, t0: int, t1: int, a: int, b: int, ts: seq<int>, plan: seq<int>)
    requires |ts| == |plan| && ValidPlan(plan, |loads|) && 0 <= a < |loads| && 0 <= b < |loads|
    ensures ValidPlan([a, b] + plan, |loads|)
    ensures var mid := loads[a := loads[a] + t0];
      Assign(loads, [t0, t1] + ts, [a, b] + plan) == Assign(mid[b := mid[b] + t1], ts, plan)
  {
    var mid := loads[a := loads[a] + t0];
    var ts1, plan1 := [t1] + ts, [b] + plan;
    AssignFirst(mid, t1, ts, b, plan);
    AssignFirst(loads, t0, ts1, a, plan1);
    assert [t0] + ts1 == [t0, t1] + ts;
    assert [a] + plan1 == [a, b] + plan;
  }

  /** Adding t to two slots in either order gives the same loads. */
  lemma AddCommutes(s: seq<int>, a: int, b: int, t: int)
    requires 0 <= a < |s| && 0 <= b < |s|
    ensures var sa := s[a := s[a] + t];
            var sb := s[b := s[b] + t];
            sa[b := sa[b] + t] == sb[a := sb[a] + t]
  {
  }

  /** Some plan of lower rank reaches the same maximum load. */
  ghost predicate Improvable(loads: seq<int>, ts: seq<int>, plan: seq<int>)
    requires loads != [] && |plan| == |ts| && ValidPlan(plan, |loads|)
  {
    exists p :: |p| == |ts| && ValidPlan(p, |loads|) && Rank(p, |loads|) < Rank(plan, |loads|)
                && MaxOf(Assign(loads, ts, p)) == MaxOf(Assign(loads, ts, plan))
  }

  /** A plan that heuristic D or E rejects either breaks heuristic D at its
      first step, or a lower-ranked plan reaches the same maximum load. */
  lemma {:induction false} Improve(loads: seq<int>, ts: seq<int>, prevTask: int, prevProc: int, plan: seq<int>)
    requires loads != [] && |plan| == |ts| && ValidPlan(plan, |loads|)
    requires !Allowed(loads, ts, prevTask, prevProc, plan)
    ensures (ts != [] && ts[0] == prevTask && plan[0] < prevProc) || Improvable(loads, ts, plan)
    decreases |ts|
  {
    var p0 := plan[0];
    assert p0 in plan && forall x :: x in plan[1..] ==> x in plan;
    var next := loads[p0 := loads[p0] + ts[0]];
    if ts[0] == prevTask && p0 < prevProc {
    } else if HasLowerSame(loads, p0) {
      var j :| 0 <= j < p0 && loads[j] == loads[p0];
      SwapImproves(loads, ts, plan, j);
    } else {
      Improve(next, ts[1..], ts[0], p0, plan[1..]);
      if ts[1..] != [] && ts[1..][0] == ts[0] && plan[1..][0] < p0 {
        TwinImproves(loads, ts, plan);
      } else {
        TailImproves(loads, ts, plan);
      }
    }
  }

  /** Heuristic E: when a lower processor j has the load of the first
      step's processor, exchanging the two throughout gives a lower-ranked
      plan whose final loads are the same up to the exchange. */
  lemma SwapImproves(loads: seq<int>, ts: seq<int>, plan: seq<int>, j: int)
    requires |plan| == |ts| > 0 && ValidPlan(plan, |loads|)
    requires 0 <= j < plan[0] < |loads| && loads[j] == loads[plan[0]]
    ensures Improvable(loads, ts, plan)
  {
    var better := SwapPlan(plan, plan[0], j);
    AssignSwap(loads, ts, plan, plan[0], j);
    assert SwapSlots(loads, plan[0], j) == loads;
    MaxOfSwap(Assign(loads, ts, plan), plan[0], j);
    RankHeadLess(better, plan, |loads|);
  }

  /** Heuristic D: when a task equal to the first goes to a lower processor
      next, the two may trade processors, which gives a lower-ranked plan
      with the same final loads. */
  lemma TwinImproves(loads: seq<int>, ts: seq<int>, plan: seq<int>)
    requires loads != [] && |plan| == |ts| >= 2 && ValidPlan(plan, |loads|)
    requires ts[1] == ts[0] && plan[1] < plan[0]
    ensures Improvable(loads, ts, plan)
  {
    var better := [plan[1], plan[0]] + plan[2..];
    assert plan[0] in plan && plan[1] in plan && forall x :: x in plan[2..] ==> x in plan;
    AssignTwin(loads, ts[0], plan[0], plan[1], ts[2..], plan[2..]);
    assert ts == [ts[0], ts[0]] + ts[2..];
    assert plan == [plan[0], plan[1]] + plan[2..];
    RankHeadLess(better, plan, |loads|);
  }

  /** A lower-ranked plan for the rest keeps the first step in front of
      it. */
  lemma TailImproves(loads: seq<int>, ts: seq<int>, plan: seq<int>)
    requires |plan| == |ts| > 0 && ValidPlan(plan, |loads|) && 0 <= plan[0] < |loads|
    requires ValidPlan(plan[1..], |loads|)
    requires Improvable(loads[plan[0] := loads[plan[0]] + ts[0]], ts[1..], plan[1..])
    ensures Improvable(loads, ts, plan)
  {
    var n, p0 := |loads|, plan[0];
    var next := loads[p0 := loads[p0] + ts[0]];
    var p :| |p| == |ts| - 1 && ValidPlan(p, n) && Rank(p, n) < Rank(plan[1..], n)
             && MaxOf(Assign(next, ts[1..], p)) == MaxOf(Assign(next, ts[1..], plan[1..]));
    var better := [p0] + p;
    AssignFirst(loads, ts[0], ts[1..], p0, p);
    assert [ts[0]] + ts[1..] == ts;
    assert better[0] == p0 && better[1..] == p;
  }

  /** Every plan from the loads has an allowed plan with the same maximum
      load, so the plans heuristics D and E skip never hold a better one. */
  lemma {:induction false} Canonical(loads: seq<int>, ts: seq<int>, prevTask: int, plan: seq<int>)
    requires loads != [] && |plan| == |ts| && ValidPlan(plan, |loads|)
    ensures exists q :: Allowed(loads, ts, prevTask, 0, q) && ValidPlan(q, |loads|)
                        && MaxOf(Assign(loads, ts, q)) == MaxOf(Assign(loads, ts, plan))
    decreases Rank(plan, |loads|)
  {
    RankBounds(plan, |loads|);
    if !Allowed(loads, ts, prevTask, 0, plan) {
      if ts != [] {
        assert plan[0] in plan;
      }
      Improve(loads, ts, prevTask, 0, plan);
      assert Improvable(loads, ts, plan);
      var p :| |p| == |ts| && ValidPlan(p, |loads|) && Rank(p, |loads|) < Rank(plan, |loads|)
               && MaxOf(Assign(loads, ts, p)) == MaxOf(Assign(loads, ts, plan));
      RankBounds(p, |loads|);
      Canonical(loads, ts, prevTask, p);
    }
  }

  lemma {:induction false} SumNonNegative(s: seq<int>)
    requires NonNegative(s)
    ensures Sum(s) >= 0
  {
    if s != [] {
      SumNonNegative(s[..|s| - 1]);
    }
  }

  /** With no negative task, a value that is the rounded-up average or
      beats every allowed plan from empty processors is at most the maximum
      load of every plan. */
  lemma OptIsOptimal(ts: seq<int>, nProcs: nat, r: int)
    requires nProcs > 0 && NonNegative(ts)
    requires r == LowBound(Sum(ts), nProcs) || Beats(r, Zeros(nProcs), ts, 0, 0, nProcs)
    ensures forall plan :: |plan| == |ts| && ValidPlan(plan, nProcs) ==> r <= MaxOf(Assign(Zeros(nProcs), ts, plan))
  {
    forall plan | |plan| == |ts| && ValidPlan(plan, nProcs)
      ensures r <= MaxOf(Assign(Zeros(nProcs), ts, plan))
    {
      if r == LowBound(Sum(ts), nProcs) {
        BoundBelowPlan(ts, nProcs, plan);
      } else {
        BeatsPlan(ts, nProcs, r, plan);
      }
    }
  }

  lemma BoundBelowPlan(ts: seq<int>, nProcs: nat, plan: seq<int>)
    requires nProcs > 0 && NonNegative(ts) && |plan| == |ts| && ValidPlan(plan, nProcs)
    ensures LowBound(Sum(ts), nProcs) <= MaxOf(Assign(Zeros(nProcs), ts, plan))
  {
    var loads := Assign(Zeros(nProcs), ts, plan);
    SumNonNegative(ts);
    AssignSum(Zeros(nProcs), ts, plan);
    SumZeros(nProcs);
    assert Sum(loads) == Sum(ts) && |loads| == nProcs;
    LowBoundBelowMax(loads);
  }

  lemma BeatsPlan(ts: seq<int>, nProcs: nat, r: int, plan: seq<int>)
    requires nProcs > 0 && Beats(r, Zeros(nProcs), ts, 0, 0, nProcs)
    requires |plan| == |ts| && ValidPlan(plan, nProcs)
    ensures r <= MaxOf(Assign(Zeros(nProcs), ts, plan))
  {
    Canonical(Zeros(nProcs), ts, 0, plan);
    var q :| Allowed(Zeros(nProcs), ts, 0, 0, q) && ValidPlan(q, nProcs)
             && MaxOf(Assign(Zeros(nProcs), ts, q)) == MaxOf(Assign(Zeros(nProcs), ts, plan));
    if q != [] {
      assert q[0] in q;
    }
  }

  // ---------------------------------------------------------------------
  // The backtracking optimum

  /** optBT: tries tasks[curTask] on every processor that heuristics D and E
      allow (not a repeat of the previous task on a lower processor, and not
      a processor whose load an earlier one already has), descending only
      while the maximum load stays below the best value so far. The result
      never exceeds vsf; below vsf it is the maximum load of a completion of
      the current loads, given by plan. Every trial is undone, so the loads
      come back unchanged, unless the search stopped early on reaching
      lowBnd. With no negative task, a result other than lowBnd is at most
      the maximum load of every completion the heuristics allow. */
  method OptBT(tasks: seq<int>, nTasks: int, curTask: int, processors: array<int>, nProcs: int,
               vsf: int, lowBnd: int, prevTask: int, prevProc: int) returns (r: int, ghost plan: seq<int>)
    requires nTasks == |tasks| && 0 <= curTask <= nTasks
    requires nProcs == processors.Length && nProcs > 0
    modifies processors
    ensures r <= vsf
    ensures r < vsf ==>
      && |plan| == nTasks - curTask && ValidPlan(plan, nProcs)
      && r == MaxOf(Assign(old(processors[..]), tasks[curTask..], plan))
    ensures r != lowBnd ==> processors[..] == old(processors[..])
    ensures NonNegative(tasks) ==>
      r == lowBnd || Beats(r, old(processors[..]), tasks[curTask..], prevTask, prevProc, nProcs)
    decreases nTasks - curTask, 1
  {
    if curTask == nTasks {
      var m := Max(processors, nProcs);
      assert processors[..nProcs] == processors[..];
      plan := [];
      r := if m < vsf then m else vsf;
      BeatsBelowMax(r, processors[..], tasks[curTask..], prevTask, prevProc, nProcs);
      return r, plan;
    }
    ghost var start := processors[..];
    ghost var ts := tasks[curTask..];
    ghost var nonNegative := NonNegative(tasks);
    assert ts[0] == tasks[curTask] && ts[1..] == tasks[curTask + 1..];
    var best := vsf;
    plan := [];
    BeatsNone(best, start, ts, prevTask, prevProc);
    for i := 0 to nProcs
      invariant processors[..] == start
      invariant best <= vsf
      invariant best < vsf ==>
        && |plan| == nTasks - curTask && ValidPlan(plan, nProcs)
        && best == MaxOf(Assign(start, tasks[curTask..], plan))
      invariant nonNegative ==> Beats(best, start, ts, prevTask, prevProc, i)
    {
      var same := LowerSame(processors, i);
      assert same <==> HasLowerSame(start, i);
      if (tasks[curTask] != prevTask || i >= prevProc) && !same {
        var b;
        ghost var p;
        b, p := Branch(tasks, nTasks, curTask, processors, nProcs, i, best, lowBnd);
        if b < best {
          plan := p;
        }
        if b == lowBnd {
          return b, plan;
        }
        if nonNegative {
          BeatsNext(best, b, start, ts, prevTask, prevProc, i);
        }
        best := b;
        AddLoad(processors, i, -tasks[curTask]);
        assert processors[..] == start;
      } else if nonNegative {
        BeatsNext(best, best, start, ts, prevTask, prevProc, i);
      }
    }
    return best, plan;
  }

  /** One branch of optBT: tasks[curTask] goes to processor i, and the
      search continues below while the maximum load stays under best. The
      result never exceeds best; below best it is the maximum load of a
      completion of the loads on entry whose first step is processor i.
      Unless it is lowBnd, the loads are those of the trial step, and with no
      negative task the result beats every allowed completion after it: the
      pruning is safe because adding tasks never lowers the maximum load. */
  method Branch(tasks: seq<int>, nTasks: int, curTask: int, processors: array<int>, nProcs: int,
                i: int, best: int, lowBnd: int) returns (r: int, ghost plan: seq<int>)
    requires nTasks == |tasks| && 0 <= curTask < nTasks
    requires nProcs == processors.Length && 0 <= i < nProcs
    modifies processors
    ensures r <= best
    ensures r < best ==>
      && |plan| == nTasks - curTask && ValidPlan(plan, nProcs)
      && r == MaxOf(Assign(old(processors[..]), tasks[curTask..], plan))
    ensures r != lowBnd ==> processors[..] == old(processors[..])[i := old(processors[..])[i] + tasks[curTask]]
    ensures NonNegative(tasks) ==>
      r == lowBnd || Beats(r, old(processors[..])[i := old(processors[..])[i] + tasks[curTask]], tasks[curTask + 1..], tasks[curTask], i, nProcs)
    decreases nTasks - curTask, 0
  {
    ghost var start := processors[..];
    AddLoad(processors, i, tasks[curTask]);
    ghost var tried := processors[..];
    assert tried == start[i := start[i] + tasks[curTask]];
    var m := Max(processors, nProcs);
    assert processors[..nProcs] == tried;
    r := best;
    plan := [];
    ghost var nonNegative := NonNegative(tasks);
    if m >= best && nonNegative {
      BeatsBelowMax(best, tried, tasks[curTask + 1..], tasks[curTask], i, nProcs);
    }
    if m < best {
      ghost var subPlan;
      r, subPlan := OptBT(tasks, nTasks, curTask + 1, processors, nProcs, best, lowBnd, tasks[curTask], i);
      if r < best {
        assert r == MaxOf(Assign(tried, tasks[curTask + 1..], subPlan));
        plan := [i] + subPlan;
        AssignAt(start, tasks, curTask, i, subPlan);
      }
    }
  }

  /** optCore: starts the search from empty processors with the least
      workload result as the value to beat and the rounded-up average load
      as the value that ends it. The result is at most the least workload
      result, is the maximum load of some assignment of all tasks when it is
      below it, and, for a total that is not negative, is at least the
      rounded-up average. With no negative task it is optimal: no assignment
      of the tasks has a lower maximum load. */
  method OptCore(tasks: array<int>, nTasks: int, nProcs: int) returns (r: int)
    requires nTasks == tasks.Length && nProcs > 0
    ensures r <= MaxOf(LwLoads(Zeros(nProcs), tasks[..]))
    ensures r < MaxOf(LwLoads(Zeros(nProcs), tasks[..])) ==>
      exists plan :: |plan| == nTasks && ValidPlan(plan, nProcs) && r == MaxOf(Assign(Zeros(nProcs), tasks[..], plan))
    ensures Sum(tasks[..]) >= 0 ==> r >= LowBound(Sum(tasks[..]), nProcs)
    ensures NonNegative(tasks[..]) ==>
      forall plan :: |plan| == nTasks && ValidPlan(plan, nProcs) ==> r <= MaxOf(Assign(Zeros(nProcs), tasks[..], plan))
  {
    var processors := Cleared(nProcs);
    var vsf := LwCore(tasks, nTasks, nProcs);
    assert tasks[..nTasks] == tasks[..];
    var total := SumOf(tasks, nTasks);
    var lowBnd := CDiv(total, nProcs) + if CRem(total, nProcs) != 0 then 1 else 0;
    ghost var plan;
    r, plan := OptBT(tasks[..], nTasks, 0, processors, nProcs, vsf, lowBnd, 0, 0);
    assert tasks[..][0..] == tasks[..];
    OptAboveBound(tasks[..], nProcs, vsf, r, plan);
    ghost var nonNegative := NonNegative(tasks[..]);
    if nonNegative {
      OptIsOptimal(tasks[..], nProcs, r);
    }
  }

  /** Both candidates optCore can return, the least workload result and the
      maximum load of a complete assignment, are at least the bound. */
  lemma OptAboveBound(ts: seq<int>, nProcs: nat, vsf: int, r: int, plan: seq<int>)
    requires nProcs > 0 && vsf == MaxOf(LwLoads(Zeros(nProcs), ts)) && r <= vsf
    requires r < vsf ==> |plan| == |ts| && ValidPlan(plan, nProcs) && r == MaxOf(Assign(Zeros(nProcs), ts, plan))
    ensures Sum(ts) >= 0 ==> r >= LowBound(Sum(ts), nProcs)
  {
    if Sum(ts) >= 0 {
      if r < vsf {
        var loads := Assign(Zeros(nProcs), ts, plan);
        AssignSum(Zeros(nProcs), ts, plan);
        SumZeros(nProcs);
        assert Sum(loads) == Sum(ts) && |loads| == nProcs;
        LowBoundBelowMax(loads);
      } else {
        LwAboveBound(ts, nProcs);
      }
    }
  }

  // ---------------------------------------------------------------------
  // Running an algorithm

  /** Reordering the tasks keeps their total. */
  lemma {:induction false} SumMultiset(a: seq<int>, b: seq<int>)
    requires multiset(a) == multiset(b)
    ensures Sum(a) == Sum(b)
    decreases |a|
  {
    if a == [] {
      assert |b| == |multiset(b)| == 0;
    } else {
      var x := a[|a| - 1];
      var p := a[..|a| - 1];
      assert a == p + [x];
      assert x in multiset(b);
      var j :| 0 <= j < |b| && b[j] == x;
      var q := b[..j] + b[j + 1..];
      assert b == b[..j] + [x] + b[j + 1..];
      assert multiset(p) == multiset(q) by {
        assert multiset(a) == multiset(p) + multiset{x};
        assert multiset(b) == multiset(b[..j]) + multiset{x} + multiset(b[j + 1..]);
        assert multiset(q) == multiset(b[..j]) + multiset(b[j + 1..]);
        assert multiset(q) == multiset(b) - multiset{x};
      }
      SumMultiset(p, q);
      SumAppend(p, [x]);
      SumAppend(b[..j], [x]);
      SumAppend(b[..j] + [x], b[j + 1..]);
      SumAppend(b[..j], b[j + 1..]);
      assert Sum([x]) == x by { assert [x][..0] == []; }
    }
  }

  /** What applyFlag prints for an algorithm, given the tasks in their
      original order and in descending order: the maximum load of least or
      best workload on the one or the other, and for -opt the value optCore
      promises on the descending order. The descending order is a sorted
      permutation of the tasks. */
  ghost predicate Reported(a: Algorithm, tasks: seq<int>, order: seq<int>, nProcs: nat, value: int)
    requires nProcs > 0
  {
    match a
    case Lw => value == MaxOf(LwLoads(Zeros(nProcs), tasks))
    case Lwd =>
      && Descending(order) && multiset(order) == multiset(tasks)
      && value == MaxOf(LwLoads(Zeros(nProcs), order))
    case Bw => value == MaxOf(BwRun(nProcs, tasks).loads)
    case Bwd =>
      && Descending(order) && multiset(order) == multiset(tasks)
      && value == MaxOf(BwRun(nProcs, order).loads)
    case Opt =>
      && Descending(order) && multiset(order) == multiset(tasks)
      && value <= MaxOf(LwLoads(Zeros(nProcs), order))
      && (value < MaxOf(LwLoads(Zeros(nProcs), order)) ==>
        exists plan :: |plan| == |order| && ValidPlan(plan, nProcs) && value == MaxOf(Assign(Zeros(nProcs), order, plan)))
      && (Sum(tasks) >= 0 ==> value >= LowBound(Sum(tasks), nProcs))
      && (NonNegative(tasks) ==>
        forall plan :: |plan| == |order| && ValidPlan(plan, nProcs) ==> value <= MaxOf(Assign(Zeros(nProcs), order, plan)))
  }

  /** Reordering keeps the tasks' signs. */
  lemma NonNegativePermuted(a: seq<int>, b: seq<int>)
    requires multiset(a) == multiset(b) && NonNegative(b)
    ensures NonNegative(a)
  {
    forall k | 0 <= k < |a| ensures a[k] >= 0 {
      assert a[k] in multiset(b);
      var j :| 0 <= j < |b| && b[j] == a[k];
    }
  }

  /** A descending copy of the tasks, as opt, lwd and bwd make. */
  method SortedCopy(tasks: array<int>, nTasks: int) returns (sortedTasks: array<int>)
    requires 0 <= nTasks <= tasks.Length
    ensures fresh(sortedTasks) && sortedTasks.Length == nTasks
    ensures Descending(sortedTasks[..]) && multiset(sortedTasks[..]) == multiset(tasks[..nTasks])
  {
    sortedTasks := new int[nTasks];
    Sort(tasks, sortedTasks, nTasks);
    assert sortedTasks[..nTasks] == sortedTasks[..];
  }

  /** opt: optCore on the tasks in descending order. */
  method RunOpt(tasks: array<int>, nTasks: int, nProcs: int) returns (value: int, order: seq<int>)
    requires 0 <= nTasks <= tasks.Length && nProcs > 0
    ensures Descending(order) && multiset(order) == multiset(tasks[..nTasks])
    ensures Reported(Opt, tasks[..nTasks], order, nProcs, value)
  {
    var sortedTasks := SortedCopy(tasks, nTasks);
    order := sortedTasks[..];
    value := OptCore(sortedTasks, nTasks, nProcs);
    assert sortedTasks[..] == order;
    SumMultiset(order, tasks[..nTasks]);
    ghost var nonNegative := NonNegative(tasks[..nTasks]);
    if nonNegative {
      NonNegativePermuted(order, tasks[..nTasks]);
    }
  }

  /** lw: lwCore on the tasks as given. */
  method RunLw(tasks: array<int>, nTasks: int, nProcs: int) returns (value: int)
    requires 0 <= nTasks <= tasks.Length && nProcs > 0
    ensures value == MaxOf(LwLoads(Zeros(nProcs), tasks[..nTasks]))
  {
    value := LwCore(tasks, nTasks, nProcs);
  }

  /** lwd: lwCore on the tasks in descending order. */
  method RunLwd(tasks: array<int>, nTasks: int, nProcs: int) returns (value: int, order: seq<int>)
    requires 0 <= nTasks <= tasks.Length && nProcs > 0
    ensures Descending(order) && multiset(order) == multiset(tasks[..nTasks])
    ensures Reported(Lwd, tasks[..nTasks], order, nProcs, value)
  {
    var sortedTasks := SortedCopy(tasks, nTasks);
    order := sortedTasks[..];
    value := LwCore(sortedTasks, nTasks, nProcs);
    assert sortedTasks[..nTasks] == order;
  }

  /** bw: bwCore on the tasks as given. */
  method RunBw(tasks: array<int>, nTasks: int, nProcs: int) returns (value: int)
    requires 0 <= nTasks <= tasks.Length && nProcs > 0
    ensures value == MaxOf(BwRun(nProcs, tasks[..nTasks]).loads)
  {
    value := BwCore(tasks, nTasks, nProcs);
  }

  /** bwd: bwCore on the tasks in descending order. */
  method RunBwd(tasks: array<int>, nTasks: int, nProcs: int) returns (value: int, order: seq<int>)
    requires 0 <= nTasks <= tasks.Length && nProcs > 0
    ensures Descending(order) && multiset(order) == multiset(tasks[..nTasks])
    ensures Reported(Bwd, tasks[..nTasks], order, nProcs, value)
  {
    var sortedTasks := SortedCopy(tasks, nTasks);
    order := sortedTasks[..];
    value := BwCore(sortedTasks, nTasks, nProcs);
    assert sortedTasks[..nTasks] == order;
  }

  /** applyFlag: the algorithm the flag selects, with the value it prints;
      -opt, -lwd and -bwd work on a descending copy of the tasks, and the
      tasks themselves are left as they are. */
  method ApplyFlag(flag: string, tasks: array<int>, nTasks: int, nProcs: int)
      returns (a: Algorithm, value: int, ghost order: seq<int>)
    requires 0 <= nTasks <= tasks.Length && nProcs > 0
    ensures a == Selected(flag)
    ensures (a == Opt || a == Lwd || a == Bwd) ==> Descending(order) && multiset(order) == multiset(tasks[..nTasks])
    ensures Reported(a, tasks[..nTasks], order, nProcs, value)
  {
    order := [];
    if flag == "-opt" {
      a := Opt;
      value, order := RunOpt(tasks, nTasks, nProcs);
    } else if flag == "-lw" {
      a := Lw;
      value := RunLw(tasks, nTasks, nProcs);
    } else if flag == "-bw" {
      a := Bw;
      value := RunBw(tasks, nTasks, nProcs);
    } else if flag == "-lwd" {
      a := Lwd;
      value, order := RunLwd(tasks, nTasks, nProcs);
    } else {
      a := Bwd;
      value, order := RunBwd(tasks, nTasks, nProcs);
    }
  }

  // ---------------------------------------------------------------------
  // The command line

  /** The task values among the arguments, in order: the arguments that are
      not flags, each standing for its atoi value. */
  function TasksOf(args: seq<string>, values: seq<int>): (r: seq<int>)
    requires |values| == |args|
    ensures |r| <= |args|
  {
    if args == [] then []
    else
      var rest := TasksOf(args[..|args| - 1], values[..|args| - 1]);
      if IsFlag(args[|args| - 1]) then rest else rest + [values[|args| - 1]]
  }

  /** The flags among the arguments, in order. */
  function FlagsOf(args: seq<string>): (r: seq<string>)
    ensures |r| <= |args|
  {
    if args == [] then []
    else
      var rest := FlagsOf(args[..|args| - 1]);
      if IsFlag(args[|args| - 1]) then rest + [args[|args| - 1]] else rest
  }

  /** Every argument is either a task or a flag, and every flag is one of
      the five names. */
  lemma {:induction false} ArgsPartition(args: seq<string>, values: seq<int>)
    requires |values| == |args|
    ensures |TasksOf(args, values)| + |FlagsOf(args)| == |args|
    ensures forall f :: f in FlagsOf(args) ==> IsFlag(f)
    ensures (forall i :: 0 <= i < |args| ==> IsFlag(args[i])) <==> TasksOf(args, values) == []
  {
    if args != [] {
      var n := |args| - 1;
      ArgsPartition(args[..n], values[..n]);
      if forall i :: 0 <= i < n ==> IsFlag(args[..n][i]) {
        assert forall i :: 0 <= i < n ==> IsFlag(args[i]) by {
          forall i | 0 <= i < n ensures IsFlag(args[i]) { assert args[..n][i] == args[i]; }
        }
      } else {
        var i :| 0 <= i < n && !IsFlag(args[..n][i]);
        assert !IsFlag(args[i]);
      }
    }
  }

  /** One turn of main's argument loop: argument i goes to the tasks or the
      flags. */
  method SplitOne(args: seq<string>, values: seq<int>, i: nat,
                  tasks: array<int>, nTasks: nat, flags: array<string>, nFlags: nat)
      returns (nTasks': nat, nFlags': nat)
    requires |values| == |args| && i < |args| == tasks.Length == flags.Length
    requires nTasks <= i && nFlags <= i
    requires tasks[..nTasks] == TasksOf(args[..i], values[..i])
    requires flags[..nFlags] == FlagsOf(args[..i])
    modifies tasks, flags
    ensures nTasks' <= i + 1 && nFlags' <= i + 1
    ensures tasks[..nTasks'] == TasksOf(args[..i + 1], values[..i + 1])
    ensures flags[..nFlags'] == FlagsOf(args[..i + 1])
  {
    SplitStep(args, values, i);
    nTasks', nFlags' := nTasks, nFlags;
    if !IsFlag(args[i]) {
      Put(tasks, nTasks, values[i]);
      nTasks' := nTasks + 1;
    } else {
      Put(flags, nFlags, args[i]);
      nFlags' := nFlags + 1;
    }
  }

  /** Stores x in the first unused slot n of a, the step both argument
      lists of main take. */
  method Put<T>(a: array<T>, n: nat, x: T)
    requires n < a.Length
    modifies a
    ensures a[..n + 1] == old(a[..n]) + [x]
  {
    a[n] := x;
  }

  /** One more argument extends the tasks or the flags, as it is a flag or not. */
  lemma SplitStep(args: seq<string>, values: seq<int>, i: nat)
    requires |values| == |args| && i < |args|
    ensures TasksOf(args[..i + 1], values[..i + 1])
      == if IsFlag(args[i]) then TasksOf(args[..i], values[..i]) else TasksOf(args[..i], values[..i]) + [values[i]]
    ensures FlagsOf(args[..i + 1])
      == if IsFlag(args[i]) then FlagsOf(args[..i]) + [args[i]] else FlagsOf(args[..i])
  {
    assert args[..i + 1][..i] == args[..i] && values[..i + 1][..i] == values[..i];
  }

  /** main's argument loop: arguments from argv[2] on that are flags go to
      flags, the others to tasks as their atoi values. */
  method SplitArgs(args: seq<string>, values: seq<int>)
      returns (tasks: array<int>, nTasks: int, flags: array<string>, nFlags: int)
    requires |values| == |args|
    ensures fresh(tasks) && fresh(flags)
    ensures 0 <= nTasks <= tasks.Length && 0 <= nFlags <= flags.Length
    ensures tasks[..nTasks] == TasksOf(args, values) && flags[..nFlags] == FlagsOf(args)
  {
    tasks := new int[|args|];
    flags := new string[|args|](_ => "");
    nTasks, nFlags := 0, 0;
    for i := 0 to |args|
      invariant 0 <= nTasks <= i && 0 <= nFlags <= i
      invariant tasks[..nTasks] == TasksOf(args[..i], values[..i])
      invariant flags[..nFlags] == FlagsOf(args[..i])
    {
      nTasks, nFlags := SplitOne(args, values, i, tasks, nTasks, flags, nFlags);
    }
    assert args[..|args|] == args && values[..|args|] == values;
  }

  /** main, for the arguments after the program name with the atoi value of
      each: nProcs is the value of the first, the rest split into tasks and
      flags, and each flag in turn reports the value of its algorithm. The
      status is 1, with nothing reported, when there are no arguments, no
      tasks or no positive processor count. */
  method Run(args: seq<string>, values: seq<int>)
      returns (status: int, reports: seq<(Algorithm, int)>, ghost orders: seq<seq<int>>)
    requires |values| == |args|
    ensures status == 0 || status == 1
    ensures status == 1 <==> args == [] || TasksOf(args[1..], values[1..]) == [] || values[0] <= 0
    ensures status == 1 ==> reports == []
    ensures status == 0 ==>
      var ts, flags := TasksOf(args[1..], values[1..]), FlagsOf(args[1..]);
      && |reports| == |orders| == |flags|
      && forall i :: 0 <= i < |flags| ==>
        && reports[i].0 == Selected(flags[i])
        && Reported(reports[i].0, ts, orders[i], values[0], reports[i].1)
  {
    reports, orders := [], [];
    if |args| < 1 {
      return 1, reports, orders;
    }
    var nProcs := values[0];
    var tasks, nTasks, flags, nFlags := SplitArgs(args[1..], values[1..]);
    if nTasks == 0 || nProcs <= 0 {
      return 1, reports, orders;
    }
    ghost var ts, fs := tasks[..nTasks], flags[..nFlags];
    for i := 0 to nFlags
      invariant |reports| == |orders| == i
      invariant tasks[..nTasks] == ts && flags[..nFlags] == fs
      invariant forall j :: 0 <= j < i ==>
        && reports[j].0 == Selected(fs[j])
        && Reported(reports[j].0, ts, orders[j], nProcs, reports[j].1)
    {
      var a, value, order := ApplyFlag(flags[i], tasks, nTasks, nProcs);
      assert flags[i] == fs[i];
      reports, orders := reports + [(a, value)], orders + [order];
    }
    status := 0;
  }
}
