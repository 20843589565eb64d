/** heaps/heaps.c: an array binary heap that is a max-heap or a min-heap
    depending on a flag passed to each operation, and a pair of heaps that
    splits a stream of integers at its median. */
module Heaps {

  // ---------------------------------------------------------------------
  // The order of the heap

  /** cmp(i, j, mx): i comes strictly before j. Equal values never do; of
      two different values the larger comes first in a max-heap and the
      smaller in a min-heap. */
  function Cmp(i: int, j: int, mx: bool): (r: bool)
    ensures r ==> i != j
    ensures i != j ==> (r <==> (i > j) == mx)
  {
    if mx then i > j else i < j
  }

  /** p may sit above c: c does not come strictly before p. */
  predicate Above(p: int, c: int, mx: bool) {
    !Cmp(c, p, mx)
  }

  /** cmp is a strict order: never both ways, and transitive. */
  lemma CmpStrict(a: int, b: int, c: int, mx: bool)
    ensures !(Cmp(a, b, mx) && Cmp(b, a, mx))
    ensures Cmp(a, b, mx) && Cmp(b, c, mx) ==> Cmp(a, c, mx)
    ensures Cmp(a, b, mx) ==> Above(a, b, mx)
    ensures Above(a, b, mx) && Above(b, c, mx) ==> Above(a, c, mx)
    ensures Cmp(a, b, mx) && Above(b, c, mx) ==> Above(a, c, mx)
  {
  }

  function Parent(i: nat): nat
    requires i > 0
  {
    (i - 1) / 2
  }

  /** Heap order on s: every slot may sit below its parent. */
  ghost predicate HeapOrdered(s: seq<int>, mx: bool) {
    forall i {:trigger s[Parent(i)]} :: 0 < i < |s| ==> Above(s[Parent(i)], s[i], mx)
  }

  /** The root of an ordered heap comes first among all of its elements. */
  lemma RootIsBest(s: seq<int>, mx: bool)
    requires HeapOrdered(s, mx) && s != []
    ensures forall i :: 0 <= i < |s| ==> Above(s[0], s[i], mx)
  {
    forall i | 0 <= i < |s|
      ensures Above(s[0], s[i], mx)
    {
      AncestorAbove(s, mx, i);
    }
  }

  lemma {:induction false} AncestorAbove(s: seq<int>, mx: bool, i: nat)
    requires HeapOrdered(s, mx) && i < |s|
    ensures Above(s[0], s[i], mx)
    decreases i
  {
    if i > 0 {
      AncestorAbove(s, mx, Parent(i));
    }
  }

  /** s with slots i and j exchanged. */
  function Swapped(s: seq<int>, i: nat, j: nat): (r: seq<int>)
    requires i < |s| && j < |s|
    ensures |r| == |s| && r[i] == s[j] && r[j] == s[i]
    ensures forall m :: 0 <= m < |s| && m != i && m != j ==> r[m] == s[m]
  {
    s[i := s[j]][j := s[i]]
  }

  /** Exchanging two slots of a prefix keeps the prefix's elements. */
  lemma SwapPermutes(s: seq<int>, i: nat, j: nat, n: nat)
    requires i < n && j < n && n <= |s|
    ensures multiset(Swapped(s, i, j)[..n]) == multiset(s[..n])
  {
    assert Swapped(s, i, j)[..n] == s[..n][i := s[j]][j := s[i]];
  }

  // ---------------------------------------------------------------------
  // Bubbling up: the heap order holds except between slot k and its
  // parent, and k's parent may sit above k's children.

  ghost predicate UpOk(s: seq<int>, n: nat, k: nat, mx: bool)
    requires n <= |s|
  {
    && (forall i {:trigger s[Parent(i)]} :: 0 < i < n && i != k ==> Above(s[Parent(i)], s[i], mx))
    && (0 < k < n ==> ChildrenBelow(s, n, k, s[Parent(k)], mx))
  }

  /** p may sit above each child of slot k that lies below n. */
  ghost predicate ChildrenBelow(s: seq<int>, n: nat, k: nat, p: int, mx: bool)
    requires n <= |s|
  {
    && (2 * k + 1 < n ==> Above(p, s[2 * k + 1], mx))
    && (2 * k + 2 < n ==> Above(p, s[2 * k + 2], mx))
  }

  /** Every slot but the root is a left or a right child of its parent. */
  lemma ChildOfParent(c: nat)
    requires c > 0
    ensures c == 2 * Parent(c) + 1 || c == 2 * Parent(c) + 2
  {
  }

  lemma UpStart(s: seq<int>, n: nat, mx: bool)
    requires 0 < n <= |s| && HeapOrdered(s[..n - 1], mx)
    ensures UpOk(s, n, n - 1, mx)
  {
    forall i | 0 < i < n - 1
      ensures Above(s[Parent(i)], s[i], mx)
    {
      assert s[..n - 1][i] == s[i] && s[..n - 1][Parent(i)] == s[Parent(i)];
    }
  }

  /** Swapping slot k with its parent when k comes first moves the gap up. */
  lemma UpStep(s: seq<int>, n: nat, k: nat, mx: bool)
    requires n <= |s| && 0 < k < n && UpOk(s, n, k, mx)
    requires Cmp(s[k], s[Parent(k)], mx)
    ensures UpOk(Swapped(s, Parent(k), k), n, Parent(k), mx)
  {
    var j := Parent(k);
    var t := Swapped(s, j, k);
    forall i | 0 < i < n && i != j
      ensures Above(t[Parent(i)], t[i], mx)
    {
      ChildOfParent(i);
      if i != k && Parent(i) == j {
        CmpStrict(s[k], s[j], s[i], mx);
      }
    }
    if j > 0 {
      var g := Parent(j);
      assert Above(s[g], s[j], mx);
      ChildOfParent(k);
      if 2 * j + 1 < n && 2 * j + 1 != k {
        assert Parent(2 * j + 1) == j;
        CmpStrict(s[g], s[j], s[2 * j + 1], mx);
      }
      if 2 * j + 2 < n && 2 * j + 2 != k {
        assert Parent(2 * j + 2) == j;
        CmpStrict(s[g], s[j], s[2 * j + 2], mx);
      }
    }
  }

  lemma UpDone(s: seq<int>, n: nat, k: nat, mx: bool)
    requires n <= |s| && k < n && UpOk(s, n, k, mx)
    requires k > 0 ==> Above(s[Parent(k)], s[k], mx)
    ensures HeapOrdered(s[..n], mx)
  {
    assert forall i :: 0 <= i < n ==> s[..n][i] == s[i];
  }

  // ---------------------------------------------------------------------
  // Sifting down: the heap order holds except between slot k and its
  // children, and k's parent may sit above k's children.

  ghost predicate DownOk(s: seq<int>, n: nat, k: nat, mx: bool)
    requires n <= |s|
  {
    && (forall i {:trigger s[Parent(i)]} :: 0 < i < n && Parent(i) != k ==> Above(s[Parent(i)], s[i], mx))
    && (0 < k < n ==> ChildrenBelow(s, n, k, s[Parent(k)], mx))
  }

  lemma DownStart(s: seq<int>, n: nat, mx: bool)
    requires n < |s| && HeapOrdered(s[..n + 1], mx)
    ensures DownOk(s[0 := s[n]], n, 0, mx)
  {
    forall i | 0 < i < n && Parent(i) != 0
      ensures Above(s[0 := s[n]][Parent(i)], s[0 := s[n]][i], mx)
    {
      assert s[..n + 1][i] == s[i] && s[..n + 1][Parent(i)] == s[Parent(i)];
    }
  }

  /** Swapping slot k with its child j, when j comes first among k and its
      children, moves the gap down to j. */
  lemma DownStep(s: seq<int>, n: nat, k: nat, j: nat, mx: bool)
    requires n <= |s| && j < n && (j == 2 * k + 1 || j == 2 * k + 2) && DownOk(s, n, k, mx)
    requires ChildrenBelow(s, n, k, s[j], mx)
    requires Cmp(s[j], s[k], mx)
    ensures DownOk(Swapped(s, k, j), n, j, mx)
  {
    var t := Swapped(s, k, j);
    forall i | 0 < i < n && Parent(i) != j
      ensures Above(t[Parent(i)], t[i], mx)
    {
      ChildOfParent(i);
    }
    forall c | c == 2 * j + 1 || c == 2 * j + 2
      ensures c < n ==> Above(t[Parent(j)], t[c], mx)
    {
      if c < n {
        assert Parent(c) == j;
        assert Above(s[Parent(c)], s[c], mx);
      }
    }
  }

  lemma DownDone(s: seq<int>, n: nat, k: nat, mx: bool)
    requires k < n <= |s| && DownOk(s, n, k, mx) && ChildrenBelow(s, n, k, s[k], mx)
    ensures HeapOrdered(s[..n], mx)
  {
    forall i | 0 < i < n
      ensures Above(s[..n][Parent(i)], s[..n][i], mx)
    {
      ChildOfParent(i);
    }
  }

  /** One swap of the sift-down loop keeps its invariant and the values. */
  lemma SiftSwap(s: seq<int>, n: nat, k: nat, j: nat, mx: bool)
    requires n <= |s| && j < n && (j == 2 * k + 1 || j == 2 * k + 2) && DownOk(s, n, k, mx)
    requires ChildrenBelow(s, n, k, s[j], mx) && Cmp(s[j], s[k], mx)
    ensures DownOk(Swapped(s, k, j), n, j, mx)
    ensures multiset(Swapped(s, k, j)[..n]) == multiset(s[..n])
  {
    DownStep(s, n, k, j, mx);
    SwapPermutes(s, k, j, n);
  }

  /** The sift-down loop stops when the first of k's children does not come
      before k: the heap is then ordered. */
  lemma SiftStop(s: seq<int>, n: nat, k: nat, j: nat, mx: bool)
    requires n <= |s| && k < j < n && (j == 2 * k + 1 || j == 2 * k + 2) && DownOk(s, n, k, mx)
    requires ChildrenBelow(s, n, k, s[j], mx) && !Cmp(s[j], s[k], mx)
    ensures HeapOrdered(s[..n], mx)
  {
    CmpStrict(s[k], s[j], s[2 * k + 1], mx);
    if 2 * k + 2 < n {
      CmpStrict(s[k], s[j], s[2 * k + 2], mx);
    }
    DownDone(s, n, k, mx);
  }

  /** Moving the last element to the root and dropping the last slot
      removes one copy of the old root. */
  lemma PopPermutes(s: seq<int>, c: nat)
    requires 0 < c <= |s|
    ensures multiset(s[0 := s[c - 1]][..c - 1]) == multiset(s[..c]) - multiset{s[0]}
  {
    var n := c - 1;
    if n == 0 {
      assert s[..c] == [s[0]];
    } else {
      assert s[0 := s[n]][..n] == s[..n][0 := s[n]];
      assert s[..c] == s[..n] + [s[n]];
    }
  }

  // ---------------------------------------------------------------------
  // The heap

  class Heap {
    /** The buffer; slots 0 .. count-1 hold the heap. */
    var data: array<int>
    var count: int
    var maxlen: int

    ghost predicate Valid()
      reads this
    {
      0 <= count <= maxlen == data.Length
    }

    /** The stored values, in slot order. */
    function Elements(): seq<int>
      reads this, data
      requires Valid()
    {
      data[..count]
    }

    /** init(n): an empty heap with room for n values. */
    constructor (n: int)
      requires n >= 0
      ensures Valid() && fresh(data)
      ensures count == 0 && maxlen == n
    {
      data := new int[n];
      count := 0;
      maxlen := n;
    }

    /** peek: the root slot, read without changing anything; on a non-empty
        heap it is one of the stored values. */
    function Peek(): (r: int)
      reads this, data
      requires Valid() && data.Length > 0
      ensures count > 0 ==> r in Elements()
    {
      data[0]
    }

    /** The root of a non-empty ordered heap is its first value: the largest
        of a max-heap, the smallest of a min-heap. */
    lemma PeekIsBest(mx: bool)
      requires Valid() && count > 0 && HeapOrdered(Elements(), mx)
      ensures Peek() in Elements()
      ensures forall e :: e in Elements() ==> Above(Peek(), e, mx)
    {
      RootIsBest(Elements(), mx);
    }

    /** swap: exchanges exactly slots k and j. */
    method Swap(k: int, j: int)
      requires Valid() && 0 <= k < data.Length && 0 <= j < data.Length
      modifies data
      ensures data[..] == Swapped(old(data[..]), k, j)
    {
      var d := data;
      var x := d[k];
      d[k] := d[j];
      d[j] := x;
    }

    /** push: refused (0) on a full heap, which stays as it is; otherwise x
        is written after the last value and bubbled up. */
    method Push(x: int, mx: bool) returns (r: int)
      requires Valid() && HeapOrdered(Elements(), mx)
      modifies this, data
      ensures Valid() && data == old(data) && maxlen == old(maxlen)
      ensures HeapOrdered(Elements(), mx)
      ensures old(count) == maxlen ==> r == 0 && count == old(count) && data[..] == old(data[..])
      ensures old(count) < maxlen ==>
        r == 1 && count == old(count) + 1 && multiset(Elements()) == multiset(old(Elements())) + multiset{x}
    {
      if count == maxlen {
        return 0;
      }
      ghost var before := Elements();
      data[count] := x;
      count := count + 1;
      assert data[..count - 1] == before;
      assert data[..count] == before + [x];
      UpStart(data[..], count, mx);
      BubbleUp(mx);
      r := 1;
    }

    /** The bubble-up loop of push: from a heap ordered everywhere but above
        its last slot, swaps that value upwards until it is ordered
        everywhere. */
    method BubbleUp(mx: bool)
      requires Valid() && count > 0 && UpOk(data[..], count, count - 1, mx)
      modifies data
      ensures HeapOrdered(Elements(), mx)
      ensures multiset(Elements()) == multiset(old(Elements()))
    {
      var d := data;
      var k := count - 1;
      ghost var m := multiset(d[..count]);
      while k > 0
        invariant 0 <= k < count
        invariant UpOk(d[..], count, k, mx)
        invariant multiset(d[..count]) == m
        decreases k
      {
        ghost var s := d[..];
        var j := (k - 1) / 2;
        if Cmp(d[k], d[j], mx) {
          UpStep(s, count, k, mx);
          SwapPermutes(s, j, k, count);
          Swap(j, k);
          k := j;
        } else {
          break;
        }
      }
      UpDone(d[..], count, k, mx);
    }

    /** pop on a non-empty heap: the root is returned, the last value moves
        to the root and is sifted down. */
    method Pop(mx: bool) returns (ret: int)
      requires Valid() && count > 0 && HeapOrdered(Elements(), mx)
      modifies this, data
      ensures Valid() && data == old(data) && maxlen == old(maxlen)
      ensures HeapOrdered(Elements(), mx)
      ensures ret == old(data[0]) && count == old(count) - 1
      ensures ret in old(Elements()) && forall e :: e in old(Elements()) ==> Above(ret, e, mx)
      ensures multiset(Elements()) == multiset(old(Elements())) - multiset{ret}
    {
      PeekIsBest(mx);
      ret := data[0];
      TakeLast(mx);
      SiftDown(mx);
    }

    /** The first half of pop: the last value moves into the root's slot,
        which leaves a heap ordered everywhere but below the root. */
    method TakeLast(mx: bool)
      requires Valid() && count > 0 && HeapOrdered(Elements(), mx)
      modifies this, data
      ensures Valid() && data == old(data) && maxlen == old(maxlen)
      ensures count == old(count) - 1 && DownOk(data[..], count, 0, mx)
      ensures multiset(Elements()) == multiset(old(Elements())) - multiset{old(data[0])}
    {
      var d := data;
      var k := 0;
      ghost var s := d[..];
      PopPermutes(s, count);
      count := count - 1;
      d[k] := d[count];
      assert d[..] == s[0 := s[count]];
      DownStart(s, count, mx);
    }

    /** The sift-down loop of pop: from a heap ordered everywhere but below
        the root, swaps the gap downwards until it is ordered everywhere. */
    method SiftDown(mx: bool)
      requires Valid() && DownOk(data[..], count, 0, mx)
      modifies data
      ensures HeapOrdered(Elements(), mx)
      ensures multiset(Elements()) == multiset(old(Elements()))
    {
      var k := 0;
      var done := false;
      while !done
        invariant Valid() && 0 <= k && (k < count || k == 0)
        invariant !done ==> DownOk(data[..], count, k, mx)
        invariant done ==> HeapOrdered(Elements(), mx)
        invariant multiset(Elements()) == multiset(old(Elements()))
        decreases count - k, !done
      {
        k, done := SiftStep(mx, k);
      }
    }

    /** One turn of the sift-down loop at k: the gap swaps with its better
        child when that child beats it, and otherwise the heap is ordered. */
    method SiftStep(mx: bool, k: nat) returns (k': nat, done: bool)
      requires Valid() && (k < count || k == 0) && DownOk(data[..], count, k, mx)
      modifies data
      ensures (k' < count || k' == 0) && multiset(Elements()) == multiset(old(Elements()))
      ensures !done ==> k < k' && DownOk(data[..], count, k', mx)
      ensures done ==> k' == k && HeapOrdered(Elements(), mx)
    {
      var d := data;
      k', done := k, true;
      if 2 * k + 1 < count && 2 * k + 2 < count {
        var j;
        if Cmp(d[2 * k + 1], d[2 * k + 2], mx) {
          j := 2 * k + 1;
        } else {
          j := 2 * k + 2;
        }
        k', done := SwapOrStop(mx, k, j);
      } else if 2 * k + 1 < count {
        k', done := SwapOrStop(mx, k, 2 * k + 1);
      } else if count > 0 {
        DownDone(data[..], count, k, mx);
      }
    }

    /** The gap at k against its better child j: swap and go on from j when
        j beats it, stop otherwise. */
    method SwapOrStop(mx: bool, k: nat, j: nat) returns (k': nat, done: bool)
      requires Valid() && j < count && (j == 2 * k + 1 || j == 2 * k + 2) && DownOk(data[..], count, k, mx)
      requires ChildrenBelow(data[..], count, k, data[j], mx)
      modifies data
      ensures k' < count && multiset(Elements()) == multiset(old(Elements()))
      ensures !done ==> k' == j && DownOk(data[..], count, k', mx)
      ensures done ==> k' == k && HeapOrdered(Elements(), mx)
    {
      ghost var s := data[..];
      if Cmp(data[j], data[k], mx) {
        SiftSwap(s, count, k, j, mx);
        Swap(k, j);
        assert data[..] == Swapped(s, k, j);
        k', done := j, false;
      } else {
        SiftStop(s, count, k, j, mx);
        assert data[..count] == s[..count];
        k', done := k, true;
      }
    }
  }

  // ---------------------------------------------------------------------
  // The median split

  /** Every value of the lower half is at most every value of the upper half. */
  ghost predicate Split(lower: seq<int>, upper: seq<int>) {
    forall a, b :: a in lower && b in upper ==> a <= b
  }

  /** lower and upper split a collection at its median (lo, hi): every lower
      value is at most every upper value, their sizes differ by at most one,
      lo is the largest lower value unless the lower half is the smaller
      one, hi is the smallest upper value unless the upper half is the
      smaller one, and the bigger half alone gives lo == hi. */
  ghost predicate Halves(lower: multiset<int>, upper: multiset<int>, lo: int, hi: int) {
    && (forall a, b :: a in lower && b in upper ==> a <= b)
    && |lower| <= |upper| + 1 && |upper| <= |lower| + 1
    && (|lower| >= |upper| ==> lo in lower && forall a :: a in lower ==> a <= lo)
    && (|upper| >= |lower| ==> hi in upper && forall b :: b in upper ==> hi <= b)
    && (|lower| != |upper| ==> lo == hi)
  }

  /** (lo, hi) is the median pair of v: the middle value twice for an odd
      count, the two middle values for an even one. */
  ghost predicate IsMedian(v: multiset<int>, lo: int, hi: int) {
    exists lower :: lower <= v && Halves(lower, v - lower, lo, hi)
  }

  /** Two split sequences of values, with lo and hi read off the bigger one
      or off both, are the halves of their values at the median. */
  lemma MedianHalves(l: seq<int>, u: seq<int>, lo: int, hi: int)
    requires Split(l, u) && |l| <= |u| + 1 && |u| <= |l| + 1
    requires |l| >= |u| ==> lo in l && forall a :: a in l ==> Above(lo, a, true)
    requires |u| >= |l| ==> hi in u && forall b :: b in u ==> Above(hi, b, false)
    requires |l| != |u| ==> lo == hi
    ensures Halves(multiset(l), multiset(u), lo, hi)
    ensures IsMedian(multiset(l) + multiset(u), lo, hi)
  {
    var lower, upper := multiset(l), multiset(u);
    assert |lower| == |l| && |upper| == |u|;
    forall a | a in lower ensures a in l {
    }
    forall b | b in upper ensures b in u {
    }
    assert Halves(lower, upper, lo, hi);
    assert (lower + upper) - lower == upper;
  }

  /** The lower half with x pushed and its top j popped is still split
      from the upper half, if x was. */
  lemma ExchangeSplits(lower: seq<int>, upper: seq<int>, x: int, pushed: seq<int>, j: int,
                       lower': seq<int>)
    requires Split(lower, upper) && forall e :: e in upper ==> x <= e
    requires multiset(pushed) == multiset(lower) + multiset{x}
    requires forall e :: e in pushed ==> e <= j
    requires multiset(lower') == multiset(pushed) - multiset{j}
    ensures Split(lower', upper)
    ensures forall e :: e in lower' ==> e <= j
  {
    forall e | e in lower'
      ensures e <= j
    {
      assert e in multiset(lower');
      assert e in multiset(pushed);
      assert e in pushed;
    }
    forall a, b | a in lower' && b in upper
      ensures a <= b
    {
      assert a in multiset(lower');
      assert a in multiset(lower) + multiset{x};
      if a != x {
        assert a in multiset(lower);
        assert a in lower;
      }
    }
  }

  /** The upper half with x pushed and its top j popped is still split
      from the lower half, if x was. */
  lemma ExchangeSplitsHigh(lower: seq<int>, upper: seq<int>, x: int, pushed: seq<int>, j: int,
                           upper': seq<int>)
    requires Split(lower, upper) && forall e :: e in lower ==> e <= x
    requires multiset(pushed) == multiset(upper) + multiset{x}
    requires forall e :: e in pushed ==> j <= e
    requires multiset(upper') == multiset(pushed) - multiset{j}
    ensures Split(lower, upper')
    ensures forall e :: e in upper' ==> j <= e
  {
    forall e | e in upper'
      ensures j <= e
    {
      assert e in multiset(upper');
      assert e in multiset(pushed);
      assert e in pushed;
    }
    forall a, b | a in lower && b in upper'
      ensures a <= b
    {
      assert b in multiset(upper');
      assert b in multiset(upper) + multiset{x};
      if b != x {
        assert b in multiset(upper);
        assert b in upper;
      }
    }
  }

  class DoubleHeap {
    /** The lower half, a max-heap, and the upper half, a min-heap. */
    var MaxH: Heap
    var MinH: Heap

    ghost predicate Valid()
      reads this, MaxH, MinH, MaxH.data, MinH.data
    {
      && MaxH != MinH && MaxH.data != MinH.data
      && MaxH.Valid() && MinH.Valid() && MaxH.maxlen == MinH.maxlen
      && HeapOrdered(MaxH.Elements(), true) && HeapOrdered(MinH.Elements(), false)
      && Split(MaxH.Elements(), MinH.Elements())
      && MaxH.count <= MinH.count + 1 && MinH.count <= MaxH.count + 1
    }

    /** All values pushed so far. */
    ghost function Values(): multiset<int>
      reads this, MaxH, MinH, MaxH.data, MinH.data
      requires MaxH.Valid() && MinH.Valid()
    {
      multiset(MaxH.Elements()) + multiset(MinH.Elements())
    }

    /** initD(n): two empty heaps of n slots each. */
    constructor (n: int)
      requires n >= 0
      ensures Valid() && fresh(MaxH) && fresh(MinH) && fresh(MaxH.data) && fresh(MinH.data)
      ensures MaxH.count == 0 && MinH.count == 0 && MaxH.maxlen == n
    {
      MinH := new Heap(n);
      MaxH := new Heap(n);
    }

    /** pushD: x goes to the half it belongs to; when that would make the
        halves differ by two, x goes to the bigger half instead and that
        half's top moves over to the other. Each heap must have room for one
        more value. */
    method PushD(x: int)
      requires Valid() && MaxH.count < MaxH.maxlen && MinH.count < MinH.maxlen
      modifies MaxH, MinH, MaxH.data, MinH.data
      ensures Valid()
      ensures Values() == old(Values()) + multiset{x}
      ensures MaxH.count + MinH.count == old(MaxH.count + MinH.count) + 1
      ensures MaxH.maxlen == old(MaxH.maxlen) && MinH.maxlen == old(MinH.maxlen)
      ensures MaxH.data == old(MaxH.data) && MinH.data == old(MinH.data)
    {
      if MaxH.count == 0 && MinH.count == 0 {
        AddLow(x);
      } else if MaxH.count == 0 {
        var mn := MinH.Peek();
        MinH.PeekIsBest(false);
        if x > mn {
          MoveDown(x);
        } else {
          AddLow(x);
        }
      } else if MinH.count == 0 {
        var mx := MaxH.Peek();
        MaxH.PeekIsBest(true);
        if x >= mx {
          AddHigh(x);
        } else {
          MoveUp(x);
        }
      } else {
        var mx := MaxH.Peek();
        var mn := MinH.Peek();
        MaxH.PeekIsBest(true);
        MinH.PeekIsBest(false);
        if MaxH.count > MinH.count {
          if mx <= x && x <= mn {
            AddHigh(x);
          } else if x < mx {
            MoveUp(x);
          } else {
            AddHigh(x);
          }
        } else if MaxH.count < MinH.count {
          if mx <= x && x <= mn {
            AddLow(x);
          } else if x < mx {
            AddLow(x);
          } else {
            MoveDown(x);
          }
        } else {
          if mx <= x && x <= mn {
            AddLow(x);
          } else if x < mx {
            AddLow(x);
          } else {
            AddHigh(x);
          }
        }
      }
    }

    /** The cases of pushD that push x onto the lower half. */
    method AddLow(x: int)
      requires Valid() && MaxH.count < MaxH.maxlen && MaxH.count <= MinH.count
      requires forall e :: e in MinH.Elements() ==> x <= e
      modifies MaxH, MaxH.data
      ensures Valid()
      ensures Values() == old(Values()) + multiset{x}
      ensures MaxH.count == old(MaxH.count) + 1 && MinH.count == old(MinH.count)
      ensures MaxH.maxlen == old(MaxH.maxlen) && MinH.maxlen == old(MinH.maxlen)
      ensures MaxH.data == old(MaxH.data) && MinH.data == old(MinH.data)
    {
      var _ := MaxH.Push(x, true);
      assert forall a :: a in MaxH.Elements() ==> a in old(MaxH.Elements()) || a == x by {
        forall a | a in MaxH.Elements()
          ensures a in old(MaxH.Elements()) || a == x
        {
          assert a in multiset(MaxH.Elements());
        }
      }
    }

    /** The cases of pushD that push x onto the upper half. */
    method AddHigh(x: int)
      requires Valid() && MinH.count < MinH.maxlen && MinH.count <= MaxH.count
      requires forall e :: e in MaxH.Elements() ==> e <= x
      modifies MinH, MinH.data
      ensures Valid()
      ensures Values() == old(Values()) + multiset{x}
      ensures MinH.count == old(MinH.count) + 1 && MaxH.count == old(MaxH.count)
      ensures MaxH.maxlen == old(MaxH.maxlen) && MinH.maxlen == old(MinH.maxlen)
      ensures MaxH.data == old(MaxH.data) && MinH.data == old(MinH.data)
    {
      var _ := MinH.Push(x, false);
      assert forall b :: b in MinH.Elements() ==> b in old(MinH.Elements()) || b == x by {
        forall b | b in MinH.Elements()
          ensures b in old(MinH.Elements()) || b == x
        {
          assert b in multiset(MinH.Elements());
        }
      }
    }

    /** The cases of pushD where the lower half is the bigger one and x
        belongs there: x is pushed onto it and its largest value is popped
        and pushed onto the upper half. */
    method MoveUp(x: int)
      requires Valid() && MaxH.count < MaxH.maxlen && MinH.count < MinH.maxlen
      requires MaxH.count == MinH.count + 1
      requires forall e :: e in MinH.Elements() ==> x <= e
      modifies MaxH, MinH, MaxH.data, MinH.data
      ensures Valid()
      ensures Values() == old(Values()) + multiset{x}
      ensures MaxH.count == old(MaxH.count) && MinH.count == old(MinH.count) + 1
      ensures MaxH.maxlen == old(MaxH.maxlen) && MinH.maxlen == old(MinH.maxlen)
      ensures MaxH.data == old(MaxH.data) && MinH.data == old(MinH.data)
    {
      var j := ExchangeLow(x);
      AddHigh(j);
    }

    /** The first half of MoveUp: x is pushed onto the lower half and its
        largest value j is popped; the halves stay split and j is at least
        every value left in the lower half. */
    method ExchangeLow(x: int) returns (j: int)
      requires Valid() && MaxH.count < MaxH.maxlen
      requires forall e :: e in MinH.Elements() ==> x <= e
      modifies MaxH, MaxH.data
      ensures Valid() && MaxH.count == old(MaxH.count) && MinH.Elements() == old(MinH.Elements())
      ensures j in old(multiset(MaxH.Elements())) + multiset{x}
      ensures multiset(MaxH.Elements()) == old(multiset(MaxH.Elements())) + multiset{x} - multiset{j}
      ensures forall e :: e in MaxH.Elements() ==> e <= j
      ensures MaxH.maxlen == old(MaxH.maxlen) && MinH.maxlen == old(MinH.maxlen)
      ensures MaxH.data == old(MaxH.data) && MinH.data == old(MinH.data)
    {
      ghost var lower := MaxH.Elements();
      ghost var upper := MinH.Elements();
      var _ := MaxH.Push(x, true);
      ghost var pushed := MaxH.Elements();
      j := MaxH.Pop(true);
      assert j in multiset(pushed);
      assert forall e :: e in pushed ==> e <= j;
      ExchangeSplits(lower, upper, x, pushed, j, MaxH.Elements());
    }

    /** The cases of pushD where the upper half is the bigger one and x
        belongs there: x is pushed onto it and its smallest value is popped
        and pushed onto the lower half. */
    method MoveDown(x: int)
      requires Valid() && MaxH.count < MaxH.maxlen && MinH.count < MinH.maxlen
      requires MinH.count == MaxH.count + 1
      requires forall e :: e in MaxH.Elements() ==> e <= x
      modifies MaxH, MinH, MaxH.data, MinH.data
      ensures Valid()
      ensures Values() == old(Values()) + multiset{x}
      ensures MinH.count == old(MinH.count) && MaxH.count == old(MaxH.count) + 1
      ensures MaxH.maxlen == old(MaxH.maxlen) && MinH.maxlen == old(MinH.maxlen)
      ensures MaxH.data == old(MaxH.data) && MinH.data == old(MinH.data)
    {
      var j := ExchangeHigh(x);
      AddLow(j);
    }

    /** The first half of MoveDown: x is pushed onto the upper half and its
        smallest value j is popped; the halves stay split and j is at most
        every value left in the upper half. */
    method ExchangeHigh(x: int) returns (j: int)
      requires Valid() && MinH.count < MinH.maxlen
      requires forall e :: e in MaxH.Elements() ==> e <= x
      modifies MinH, MinH.data
      ensures Valid() && MinH.count == old(MinH.count) && MaxH.Elements() == old(MaxH.Elements())
      ensures j in old(multiset(MinH.Elements())) + multiset{x}
      ensures multiset(MinH.Elements()) == old(multiset(MinH.Elements())) + multiset{x} - multiset{j}
      ensures forall e :: e in MinH.Elements() ==> j <= e
      ensures MaxH.maxlen == old(MaxH.maxlen) && MinH.maxlen == old(MinH.maxlen)
      ensures MaxH.data == old(MaxH.data) && MinH.data == old(MinH.data)
    {
      ghost var lower := MaxH.Elements();
      ghost var upper := MinH.Elements();
      var _ := MinH.Push(x, false);
      ghost var pushed := MinH.Elements();
      j := MinH.Pop(false);
      assert j in multiset(pushed);
      assert forall e :: e in pushed ==> j <= e;
      ExchangeSplitsHigh(lower, upper, x, pushed, j, MinH.Elements());
    }

    /** The values median prints: the top of the bigger half twice, or the
        tops of both halves when they are of equal size (median prints their
        mean). Both are pushed values, and they coincide when the number of
        values is odd. */
    function Median(): (r: (int, int))
      reads this, MaxH, MinH, MaxH.data, MinH.data
      requires Valid() && MaxH.count + MinH.count > 0
      ensures r.0 in Values() && r.1 in Values()
      ensures (MaxH.count + MinH.count) % 2 == 1 ==> r.0 == r.1
    {
      if MaxH.count > MinH.count then (MaxH.Peek(), MaxH.Peek())
      else if MaxH.count < MinH.count then (MinH.Peek(), MinH.Peek())
      else (MaxH.Peek(), MinH.Peek())
    }

    /** The median values split the pushed values: the lower half is the
        max-heap, the upper half the min-heap, and median reads the largest
        of the lower or the smallest of the upper half, as Halves says. */
    lemma MedianSplits()
      requires Valid() && MaxH.count + MinH.count > 0
      ensures Halves(multiset(MaxH.Elements()), multiset(MinH.Elements()), Median().0, Median().1)
      ensures IsMedian(Values(), Median().0, Median().1)
    {
      var (lo, hi) := Median();
      if MaxH.count >= MinH.count {
        MaxH.PeekIsBest(true);
      }
      if MinH.count >= MaxH.count {
        MinH.PeekIsBest(false);
      }
      MedianHalves(MaxH.Elements(), MinH.Elements(), lo, hi);
    }
  }

  // ---------------------------------------------------------------------
  // The program

  /** main, for the n values read: a double heap sized for all n values,
      each value pushed in turn and the median pair printed after it. The
      i-th pair is the median of the first i + 1 values. */
  method Medians(xs: seq<int>) returns (meds: seq<(int, int)>)
    ensures |meds| == |xs|
    ensures forall i :: 0 <= i < |xs| ==> MedianAt(xs, i, meds[i])
  {
    var dh := new DoubleHeap(|xs|);
    meds := [];
    for i := 0 to |xs|
      invariant fresh(dh.MaxH) && fresh(dh.MinH) && fresh(dh.MaxH.data) && fresh(dh.MinH.data)
      invariant MediansRead(dh, xs, meds) && |meds| == i
    {
      meds := MedianStep(dh, xs, meds);
    }
  }

  /** The state of main's loop after |meds| values: the double heap holds
      exactly those values and each printed pair is the median so far. */
  ghost predicate MediansRead(dh: DoubleHeap, xs: seq<int>, meds: seq<(int, int)>)
    reads dh, dh.MaxH, dh.MinH, dh.MaxH.data, dh.MinH.data
  {
    && dh.Valid() && dh.MaxH.maxlen == |xs| && |meds| <= |xs|
    && dh.MaxH.count + dh.MinH.count == |meds|
    && dh.Values() == multiset(xs[..|meds|])
    && MediansSoFar(xs, meds)
  }

  /** One turn of main's loop: push the next value and record the median. */
  method MedianStep(dh: DoubleHeap, xs: seq<int>, meds: seq<(int, int)>) returns (meds': seq<(int, int)>)
    requires MediansRead(dh, xs, meds) && |meds| < |xs|
    modifies dh.MaxH, dh.MinH, dh.MaxH.data, dh.MinH.data
    ensures MediansRead(dh, xs, meds') && |meds'| == |meds| + 1
    ensures dh.MaxH.data == old(dh.MaxH.data) && dh.MinH.data == old(dh.MinH.data)
  {
    var i := |meds|;
    var m := PushMedian(dh, xs[i]);
    PrefixMultiset(xs, i);
    MediansSnoc(xs, meds, m);
    meds' := meds + [m];
  }

  /** The i-th printed pair is the median of the first i + 1 values. */
  ghost predicate MedianAt(xs: seq<int>, i: int, m: (int, int)) {
    0 <= i < |xs| && IsMedian(multiset(xs[..i + 1]), m.0, m.1)
  }

  ghost predicate MediansSoFar(xs: seq<int>, meds: seq<(int, int)>) {
    forall j :: 0 <= j < |meds| ==> MedianAt(xs, j, meds[j])
  }

  lemma MediansSnoc(xs: seq<int>, meds: seq<(int, int)>, m: (int, int))
    requires MediansSoFar(xs, meds) && |meds| < |xs|
    requires IsMedian(multiset(xs[..|meds| + 1]), m.0, m.1)
    ensures MediansSoFar(xs, meds + [m])
  {
    assert MedianAt(xs, |meds|, m);
    forall j | 0 <= j < |meds| + 1 ensures MedianAt(xs, j, (meds + [m])[j]) {
      if j < |meds| {
        assert (meds + [m])[j] == meds[j];
      }
    }
  }

  lemma PrefixMultiset(xs: seq<int>, i: int)
    requires 0 <= i < |xs|
    ensures multiset(xs[..i + 1]) == multiset(xs[..i]) + multiset{xs[i]}
  {
    assert xs[..i + 1] == xs[..i] + [xs[i]];
  }

  /** One round of main's loop: pushD, then the median of all values so far. */
  method PushMedian(dh: DoubleHeap, x: int) returns (m: (int, int))
    requires dh.Valid() && dh.MaxH.count < dh.MaxH.maxlen && dh.MinH.count < dh.MinH.maxlen
    modifies dh.MaxH, dh.MinH, dh.MaxH.data, dh.MinH.data
    ensures dh.Valid() && dh.Values() == old(dh.Values()) + multiset{x}
    ensures dh.MaxH.count + dh.MinH.count == old(dh.MaxH.count + dh.MinH.count) + 1
    ensures dh.MaxH.maxlen == old(dh.MaxH.maxlen) && dh.MinH.maxlen == old(dh.MinH.maxlen)
    ensures dh.MaxH.data == old(dh.MaxH.data) && dh.MinH.data == old(dh.MinH.data)
    ensures IsMedian(dh.Values(), m.0, m.1)
  {
    dh.PushD(x);
    dh.MedianSplits();
    m := dh.Median();
  }
}
