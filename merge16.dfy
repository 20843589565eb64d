/** Merge16 (Merge16/Merge16.c): a stable, bottom-up merge sort of the lines of
    the named files, driven by two queues P and Q. Lines are compared by
    strnCompare: strncmp over at most LEN characters starting at character POS
    (command-line flag -POS[,LEN]). Reading the files pairs the lines into
    sorted runs of two, dealt alternately to P and Q; every pass merges the
    runs of P and Q pairwise into runs twice as long, again dealt alternately;
    the last merge happens while the lines are written out. */
module Merge16 {
  import opened Common
  import opened CircularQueue

  const INT_MAX: nat := 2147483647
  const INVALID_FLAG := "Invalid -POS,[LEN]"
  const NO_FILE := "file does not exist"

  // ------------------------------------------------------------------
  // The sort key: strnCompare
  // ------------------------------------------------------------------

  /** -POS[,LEN]: the key starts at character pos and spans at most len
      characters. */
  datatype KeyRange = KeyRange(pos: nat, len: nat)

  /** The pointer left + pos, clamped to the terminator when pos is not
      before the end of the string. */
  function From(s: string, pos: nat): string
  {
    if |s| > pos then s[pos..] else []
  }

  /** The sign of strncmp(a, b, n): compare character by character, at most n
      of them; the end of a string is smaller than every character. */
  function StrnCmp(a: string, b: string, n: nat): (r: int)
    ensures -1 <= r <= 1
    decreases n
  {
    if n == 0 || (a == [] && b == []) then 0
    else if a == [] then -1
    else if b == [] then 1
    else if a[0] < b[0] then -1
    else if a[0] > b[0] then 1
    else StrnCmp(a[1..], b[1..], n - 1)
  }

  /** strnCompare(left, right, pos, len) */
  function StrnCompare(left: string, right: string, kr: KeyRange): (r: int)
    ensures kr.pos >= |left| && kr.pos >= |right| ==> r == 0
    ensures kr.len == 0 ==> r == 0
  {
    StrnCmp(From(left, kr.pos), From(right, kr.pos), kr.len)
  }

  /** The first n characters of s (all of s when it is shorter). */
  function Prefix(s: string, n: nat): string
  {
    if |s| <= n then s else s[..n]
  }

  /** The characters of s that strnCompare looks at. */
  function Key(s: string, kr: KeyRange): string
  {
    Prefix(From(s, kr.pos), kr.len)
  }

  /** The three-way result of strcmp on two strings. */
  function Order(u: string, v: string): int
  {
    if u == v then 0 else if StrLess(u, v) then -1 else 1
  }

  lemma OrderCons(c: char, u: string, v: string)
    ensures Order([c] + u, [c] + v) == Order(u, v)
  {
    assert ([c] + u)[1..] == u && ([c] + v)[1..] == v;
    if [c] + u == [c] + v {
      assert u == ([c] + u)[1..];
    }
  }

  /** strncmp on n characters is strcmp on the first n characters. */
  lemma {:induction false} StrnCmpIsOrder(a: string, b: string, n: nat)
    ensures StrnCmp(a, b, n) == Order(Prefix(a, n), Prefix(b, n))
    decreases n
  {
    if n == 0 || (a == [] && b == []) {
    } else if a == [] || b == [] {
    } else if a[0] != b[0] {
      assert Prefix(a, n)[0] == a[0] && Prefix(b, n)[0] == b[0];
    } else {
      StrnCmpIsOrder(a[1..], b[1..], n - 1);
      assert Prefix(a, n) == [a[0]] + Prefix(a[1..], n - 1);
      assert Prefix(b, n) == [a[0]] + Prefix(b[1..], n - 1);
      OrderCons(a[0], Prefix(a[1..], n - 1), Prefix(b[1..], n - 1));
    }
  }

  /** strnCompare orders lines as strcmp orders their keys: the characters
      from pos (clamped to the string's length), at most len of them. */
  lemma StrnCompareIsKeyOrder(left: string, right: string, kr: KeyRange)
    ensures StrnCompare(left, right, kr) == Order(Key(left, kr), Key(right, kr))
  {
    StrnCmpIsOrder(From(left, kr.pos), From(right, kr.pos), kr.len);
  }

  /** strnCompare is antisymmetric. */
  lemma StrnCompareAntisymmetric(left: string, right: string, kr: KeyRange)
    ensures StrnCompare(left, right, kr) == -StrnCompare(right, left, kr)
  {
    StrnCompareIsKeyOrder(left, right, kr);
    StrnCompareIsKeyOrder(right, left, kr);
    StrLessTrichotomy(Key(left, kr), Key(right, kr));
  }

  /** The test strnCompare(x, y, pos, len) > 0: y must come before x. */
  predicate Greater(x: string, y: string, kr: KeyRange)
  {
    StrnCompare(x, y, kr) > 0
  }

  /** x may come before y. */
  predicate Le(x: string, y: string, kr: KeyRange)
  {
    !Greater(x, y, kr)
  }

  lemma LeKeys(x: string, y: string, kr: KeyRange)
    ensures Le(x, y, kr) <==> Key(x, kr) == Key(y, kr) || StrLess(Key(x, kr), Key(y, kr))
  {
    StrnCompareIsKeyOrder(x, y, kr);
  }

  lemma LeTotal(x: string, y: string, kr: KeyRange)
    ensures Le(x, y, kr) || Le(y, x, kr)
  {
    StrnCompareAntisymmetric(x, y, kr);
  }

  lemma LeReflexive(x: string, kr: KeyRange)
    ensures Le(x, x, kr)
  {
    LeKeys(x, x, kr);
  }

  lemma LeTransitive(x: string, y: string, z: string, kr: KeyRange)
    requires Le(x, y, kr) && Le(y, z, kr)
    ensures Le(x, z, kr)
  {
    LeKeys(x, y, kr);
    LeKeys(y, z, kr);
    LeKeys(x, z, kr);
    if StrLess(Key(x, kr), Key(y, kr)) && StrLess(Key(y, kr), Key(z, kr)) {
      StrLessTransitive(Key(x, kr), Key(y, kr), Key(z, kr));
    }
  }

  /** Lines strictly out of order have different keys. */
  lemma GreaterKeysDiffer(x: string, y: string, kr: KeyRange)
    requires Greater(x, y, kr)
    ensures Key(x, kr) != Key(y, kr)
  {
    LeKeys(x, y, kr);
  }

  // ------------------------------------------------------------------
  // What a stable sort produces
  // ------------------------------------------------------------------

  /** Non-decreasing under strnCompare. */
  ghost predicate Sorted(s: seq<string>, kr: KeyRange)
  {
    forall i, j :: 0 <= i < j < |s| ==> Le(s[i], s[j], kr)
  }

  /** The lines of s whose key is k, in their order in s. */
  function Class(s: seq<string>, k: string, kr: KeyRange): seq<string>
  {
    if s == [] then []
    else (if Key(s[0], kr) == k then [s[0]] else []) + Class(s[1..], k, kr)
  }

  /** out holds the lines of inp with every class of equal keys in its input
      order. */
  ghost predicate Stable(out: seq<string>, inp: seq<string>, kr: KeyRange)
  {
    forall k :: Class(out, k, kr) == Class(inp, k, kr)
  }

  lemma {:induction false} ClassConcat(a: seq<string>, b: seq<string>, k: string, kr: KeyRange)
    ensures Class(a + b, k, kr) == Class(a, k, kr) + Class(b, k, kr)
    decreases |a|
  {
    if a != [] {
      assert (a + b)[0] == a[0] && (a + b)[1..] == a[1..] + b;
      ClassConcat(a[1..], b, k, kr);
      var c := if Key(a[0], kr) == k then [a[0]] else [];
      assert Class(a + b, k, kr) == c + (Class(a[1..], k, kr) + Class(b, k, kr));
      assert c + (Class(a[1..], k, kr) + Class(b, k, kr)) == (c + Class(a[1..], k, kr)) + Class(b, k, kr);
      assert Class(a, k, kr) == c + Class(a[1..], k, kr);
    } else {
      assert a + b == b;
    }
  }

  lemma {:induction false} CountInClass(s: seq<string>, x: string, kr: KeyRange)
    ensures multiset(Class(s, Key(x, kr), kr))[x] == multiset(s)[x]
    decreases |s|
  {
    if s != [] {
      CountInClass(s[1..], x, kr);
      assert s == [s[0]] + s[1..];
    }
  }

  /** A stable reordering is a permutation. */
  lemma StableIsPermutation(out: seq<string>, inp: seq<string>, kr: KeyRange)
    requires Stable(out, inp, kr)
    ensures multiset(out) == multiset(inp)
  {
    forall x
      ensures multiset(out)[x] == multiset(inp)[x]
    {
      CountInClass(out, x, kr);
      CountInClass(inp, x, kr);
      assert Class(out, Key(x, kr), kr) == Class(inp, Key(x, kr), kr);
    }
  }

  lemma SortedTail(s: seq<string>, kr: KeyRange)
    requires Sorted(s, kr) && s != []
    ensures Sorted(s[1..], kr)
  {
    forall i, j | 0 <= i < j < |s| - 1
      ensures Le(s[1..][i], s[1..][j], kr)
    {
      assert s[1..][i] == s[i + 1] && s[1..][j] == s[j + 1];
    }
  }

  lemma SortedCons(x: string, s: seq<string>, kr: KeyRange)
    requires Sorted(s, kr)
    requires forall z :: z in s ==> Le(x, z, kr)
    ensures Sorted([x] + s, kr)
  {
    forall i, j | 0 <= i < j < |s| + 1
      ensures Le(([x] + s)[i], ([x] + s)[j], kr)
    {
      if i == 0 {
        assert ([x] + s)[j] == s[j - 1];
      } else {
        assert ([x] + s)[i] == s[i - 1] && ([x] + s)[j] == s[j - 1];
      }
    }
  }

  // ------------------------------------------------------------------
  // Merging two runs; P wins ties
  // ------------------------------------------------------------------

  /** The merge of the three loops at Merge16/Merge16.c:111-158 and of
      outputLines: the line of b is taken only when the line of a compares
      strictly greater. */
  function Merge(a: seq<string>, b: seq<string>, kr: KeyRange): (m: seq<string>)
    ensures |m| == |a| + |b|
    decreases |a| + |b|
  {
    if a == [] then b
    else if b == [] then a
    else if Greater(a[0], b[0], kr) then [b[0]] + Merge(a, b[1..], kr)
    else [a[0]] + Merge(a[1..], b, kr)
  }

  lemma {:induction false} MergePermutation(a: seq<string>, b: seq<string>, kr: KeyRange)
    ensures multiset(Merge(a, b, kr)) == multiset(a) + multiset(b)
    decreases |a| + |b|
  {
    if a == [] || b == [] {
    } else if Greater(a[0], b[0], kr) {
      MergePermutation(a, b[1..], kr);
      assert b == [b[0]] + b[1..];
    } else {
      MergePermutation(a[1..], b, kr);
      assert a == [a[0]] + a[1..];
    }
  }

  /** Every line of a sorted run is no smaller than its head. */
  lemma HeadIsLeast(s: seq<string>, z: string, kr: KeyRange)
    requires Sorted(s, kr) && s != [] && z in s
    ensures Le(s[0], z, kr)
  {
    var i :| 0 <= i < |s| && s[i] == z;
    if i == 0 {
      LeReflexive(z, kr);
    }
  }

  /** Merging two sorted runs gives a sorted run. */
  lemma {:induction false} MergeSorted(a: seq<string>, b: seq<string>, kr: KeyRange)
    requires Sorted(a, kr) && Sorted(b, kr)
    ensures Sorted(Merge(a, b, kr), kr)
    decreases |a| + |b|
  {
    if a == [] || b == [] {
    } else if Greater(a[0], b[0], kr) {
      SortedTail(b, kr);
      MergeSorted(a, b[1..], kr);
      var m := Merge(a, b[1..], kr);
      MergePermutation(a, b[1..], kr);
      LeTotal(a[0], b[0], kr);
      forall z | z in m
        ensures Le(b[0], z, kr)
      {
        assert z in multiset(m);
        if z in a {
          HeadIsLeast(a, z, kr);
          LeTransitive(b[0], a[0], z, kr);
        } else {
          assert z in b[1..];
          HeadIsLeast(b, z, kr);
        }
      }
      SortedCons(b[0], m, kr);
    } else {
      SortedTail(a, kr);
      MergeSorted(a[1..], b, kr);
      var m := Merge(a[1..], b, kr);
      MergePermutation(a[1..], b, kr);
      forall z | z in m
        ensures Le(a[0], z, kr)
      {
        assert z in multiset(m);
        if z in a[1..] {
          HeadIsLeast(a, z, kr);
        } else {
          HeadIsLeast(b, z, kr);
          LeTransitive(a[0], b[0], z, kr);
        }
      }
      SortedCons(a[0], m, kr);
    }
  }

  /** When the head of a sorted run compares greater than y, no line of the
      run shares y's key. */
  lemma {:induction false} NoneEquivalent(a: seq<string>, y: string, kr: KeyRange)
    requires Sorted(a, kr) && a != [] && Greater(a[0], y, kr)
    ensures Class(a, Key(y, kr), kr) == []
    decreases |a|
  {
    GreaterKeysDiffer(a[0], y, kr);
    if |a| > 1 {
      SortedTail(a, kr);
      assert a[1..][0] == a[1];
      if Le(a[1], y, kr) {
        LeTransitive(a[0], a[1], y, kr);
      }
      NoneEquivalent(a[1..], y, kr);
    }
  }

  /** The merge is stable: within each class of equal keys the lines of a
      come first, each part in its own order. */
  lemma {:induction false} MergeStable(a: seq<string>, b: seq<string>, k: string, kr: KeyRange)
    requires Sorted(a, kr) && Sorted(b, kr)
    ensures Class(Merge(a, b, kr), k, kr) == Class(a, k, kr) + Class(b, k, kr)
    decreases |a| + |b|
  {
    if a == [] || b == [] {
    } else if Greater(a[0], b[0], kr) {
      SortedTail(b, kr);
      MergeStable(a, b[1..], k, kr);
      assert ([b[0]] + Merge(a, b[1..], kr))[1..] == Merge(a, b[1..], kr);
      if Key(b[0], kr) == k {
        NoneEquivalent(a, b[0], kr);
      }
    } else {
      SortedTail(a, kr);
      MergeStable(a[1..], b, k, kr);
      assert ([a[0]] + Merge(a[1..], b, kr))[1..] == Merge(a[1..], b, kr);
    }
  }

  // ------------------------------------------------------------------
  // Runs dealt alternately to P and Q
  // ------------------------------------------------------------------

  function Flatten(rs: seq<seq<string>>): seq<string>
  {
    if rs == [] then [] else rs[0] + Flatten(rs[1..])
  }

  /** The runs dealt to P: the first, the third, ... */
  function Evens(rs: seq<seq<string>>): seq<string>
    decreases |rs|
  {
    if rs == [] then [] else rs[0] + Odds(rs[1..])
  }

  /** The runs dealt to Q: the second, the fourth, ... */
  function Odds(rs: seq<seq<string>>): seq<string>
    decreases |rs|
  {
    if rs == [] then [] else Evens(rs[1..])
  }

  /** Every run is sorted and holds between 1 and g lines, and all runs but
      the last hold exactly g. */
  ghost predicate RunsOk(rs: seq<seq<string>>, g: nat, kr: KeyRange)
  {
    && (forall i :: 0 <= i < |rs| ==> 0 < |rs[i]| <= g && Sorted(rs[i], kr))
    && (forall i :: 0 <= i < |rs| - 1 ==> |rs[i]| == g)
  }

  /** One pass: runs 2i and 2i+1 merge into run i of the next pass. */
  function MergeRuns(rs: seq<seq<string>>, kr: KeyRange): seq<seq<string>>
  {
    if |rs| <= 1 then rs else [Merge(rs[0], rs[1], kr)] + MergeRuns(rs[2..], kr)
  }

  /** A pair of lines in order. */
  function Sort2(x: string, y: string, kr: KeyRange): seq<string>
  {
    if Greater(x, y, kr) then [y, x] else [x, y]
  }

  /** The runs formed while reading: consecutive pairs, each in order, and a
      last line of its own when the count is odd. */
  function PairRuns(t: seq<string>, kr: KeyRange): seq<seq<string>>
  {
    if |t| == 0 then []
    else if |t| == 1 then [t]
    else [Sort2(t[0], t[1], kr)] + PairRuns(t[2..], kr)
  }

  /** Appending a run deals it to P after an even number of runs and to Q
      after an odd number. */
  lemma {:induction false} DealAppend(rs: seq<seq<string>>, m: seq<string>)
    ensures Evens(rs + [m]) == Evens(rs) + (if |rs| % 2 == 0 then m else [])
    ensures Odds(rs + [m]) == Odds(rs) + (if |rs| % 2 == 1 then m else [])
    decreases |rs|
  {
    if rs == [] {
      assert Odds([m]) == Evens([]);
    } else {
      assert (rs + [m])[1..] == rs[1..] + [m];
      DealAppend(rs[1..], m);
    }
  }

  lemma {:induction false} DealSize(rs: seq<seq<string>>)
    ensures |Evens(rs)| + |Odds(rs)| == |Flatten(rs)|
    decreases |rs|
  {
    if rs != [] {
      DealSize(rs[1..]);
    }
  }

  /** The class of a key within the concatenated runs. */
  lemma {:induction false} FlattenClass(rs: seq<seq<string>>, k: string, kr: KeyRange)
    requires rs != []
    ensures Class(Flatten(rs), k, kr) == Class(rs[0], k, kr) + Class(Flatten(rs[1..]), k, kr)
  {
    ClassConcat(rs[0], Flatten(rs[1..]), k, kr);
  }

  lemma RunsOkTail(rs: seq<seq<string>>, n: nat, g: nat, kr: KeyRange)
    requires RunsOk(rs, g, kr) && n <= |rs|
    ensures RunsOk(rs[n..], g, kr)
  {
    forall i | 0 <= i < |rs| - n
      ensures 0 < |rs[n..][i]| <= g && Sorted(rs[n..][i], kr)
      ensures i < |rs| - n - 1 ==> |rs[n..][i]| == g
    {
      assert rs[n..][i] == rs[n + i];
    }
  }

  /** A pass doubles the run length and keeps every run sorted. */
  lemma {:induction false} MergeRunsOk(rs: seq<seq<string>>, g: nat, kr: KeyRange)
    requires RunsOk(rs, g, kr)
    ensures RunsOk(MergeRuns(rs, kr), 2 * g, kr)
    decreases |rs|
  {
    if |rs| > 1 {
      RunsOkTail(rs, 2, g, kr);
      MergeRunsOk(rs[2..], g, kr);
      MergeSorted(rs[0], rs[1], kr);
      var tail := MergeRuns(rs[2..], kr);
      forall i | 0 <= i < |tail| + 1
        ensures 0 < |([Merge(rs[0], rs[1], kr)] + tail)[i]| <= 2 * g
        ensures Sorted(([Merge(rs[0], rs[1], kr)] + tail)[i], kr)
        ensures i < |tail| ==> |([Merge(rs[0], rs[1], kr)] + tail)[i]| == 2 * g
      {
        if i > 0 {
          assert ([Merge(rs[0], rs[1], kr)] + tail)[i] == tail[i - 1];
        } else if 0 < |tail| {
          assert |rs[1]| == g;
        }
      }
    } else {
      forall i | 0 <= i < |rs| ensures 0 < |rs[i]| <= 2 * g && Sorted(rs[i], kr) { }
    }
  }

  /** A pass keeps every class of equal keys in order. */
  lemma {:induction false} MergeRunsStable(rs: seq<seq<string>>, g: nat, k: string, kr: KeyRange)
    requires RunsOk(rs, g, kr)
    ensures Class(Flatten(MergeRuns(rs, kr)), k, kr) == Class(Flatten(rs), k, kr)
    decreases |rs|
  {
    if |rs| > 1 {
      RunsOkTail(rs, 2, g, kr);
      MergeRunsStable(rs[2..], g, k, kr);
      var m := Merge(rs[0], rs[1], kr);
      var out := [m] + MergeRuns(rs[2..], kr);
      assert out[1..] == MergeRuns(rs[2..], kr);
      FlattenClass(out, k, kr);
      MergeStable(rs[0], rs[1], k, kr);
      FlattenClass(rs, k, kr);
      assert rs[1..][1..] == rs[2..];
      FlattenClass(rs[1..], k, kr);
    }
  }

  /** Once 2g lines or fewer are left in runs of g, P and Q each hold at most
      one run. */
  lemma FewRuns(rs: seq<seq<string>>, g: nat, kr: KeyRange)
    requires RunsOk(rs, g, kr) && |Flatten(rs)| <= 2 * g
    ensures |rs| <= 2
  {
    if |rs| > 2 {
      ManyRunsAreLong(rs, g, kr);
    }
  }

  lemma ManyRunsAreLong(rs: seq<seq<string>>, g: nat, kr: KeyRange)
    requires RunsOk(rs, g, kr) && |rs| > 2
    ensures |Flatten(rs)| > 2 * g
  {
    var r1 := rs[1..];
    var r2 := r1[1..];
    assert r1[0] == rs[1] && r2[0] == rs[2];
    assert |Flatten(rs)| == |rs[0]| + |Flatten(r1)|;
    assert |Flatten(r1)| == |r1[0]| + |Flatten(r2)|;
    assert |Flatten(r2)| >= |r2[0]|;
  }

  lemma {:induction false} PairRunsAppend(t: seq<string>, x: seq<string>, kr: KeyRange)
    requires |t| % 2 == 0 && 1 <= |x| <= 2
    ensures PairRuns(t + x, kr) == PairRuns(t, kr) + [if |x| == 1 then x else Sort2(x[0], x[1], kr)]
    decreases |t|
  {
    if t == [] {
      assert t + x == x;
    } else {
      assert (t + x)[2..] == t[2..] + x;
      PairRunsAppend(t[2..], x, kr);
    }
  }

  /** The pairs formed while reading are sorted runs of two. */
  lemma {:induction false} PairRunsOk(t: seq<string>, kr: KeyRange)
    ensures RunsOk(PairRuns(t, kr), 2, kr)
    decreases |t|
  {
    if |t| == 1 {
      assert PairRuns(t, kr) == [t];
    } else if |t| >= 2 {
      PairRunsOk(t[2..], kr);
      var p := Sort2(t[0], t[1], kr);
      LeTotal(t[0], t[1], kr);
      assert Sorted(p, kr);
      var rs := PairRuns(t, kr);
      forall i | 0 <= i < |rs|
        ensures 0 < |rs[i]| <= 2 && Sorted(rs[i], kr)
        ensures i < |rs| - 1 ==> |rs[i]| == 2
      {
        if i > 0 {
          assert rs[i] == PairRuns(t[2..], kr)[i - 1];
        }
      }
    }
  }

  /** Pairing keeps every class of equal keys in order. */
  lemma {:induction false} PairRunsStable(t: seq<string>, k: string, kr: KeyRange)
    ensures Class(Flatten(PairRuns(t, kr)), k, kr) == Class(t, k, kr)
    decreases |t|
  {
    if |t| == 1 {
      assert Flatten([t]) == t;
    } else if |t| >= 2 {
      PairRunsStable(t[2..], k, kr);
      var rs := PairRuns(t, kr);
      assert rs[1..] == PairRuns(t[2..], kr);
      FlattenClass(rs, k, kr);
      assert t == [t[0], t[1]] + t[2..];
      ClassConcat([t[0], t[1]], t[2..], k, kr);
      Sort2Stable(t[0], t[1], k, kr);
    }
  }

  /** Ordering a pair never swaps two lines of equal key. */
  lemma Sort2Stable(x: string, y: string, k: string, kr: KeyRange)
    ensures Class(Sort2(x, y, kr), k, kr) == Class([x, y], k, kr)
  {
    if Greater(x, y, kr) {
      GreaterKeysDiffer(x, y, kr);
      ClassConcat([x], [y], k, kr);
      ClassConcat([y], [x], k, kr);
      assert [x, y] == [x] + [y] && [y, x] == [y] + [x];
    }
  }

  // ------------------------------------------------------------------
  // parseArgs
  // ------------------------------------------------------------------

  /** The options main passes on: the key range and the index in argv of
      the first file name. */
  datatype Args = Args(pos: nat, len: nat, firstFile: nat)

  predicate AllDigits(s: string)
  {
    forall i :: 0 <= i < |s| ==> IsDigit(s[i])
  }

  /** The length of the run of digits strtol consumes at the front of s. */
  function DigitRun(s: string): (n: nat)
    ensures n <= |s|
    ensures AllDigits(s[..n])
    ensures n < |s| ==> !IsDigit(s[n])
    decreases |s|
  {
    if s == [] || !IsDigit(s[0]) then 0 else 1 + DigitRun(s[1..])
  }

  /** The decimal value strtol(s, _, 10) of a run of digits. */
  function Decimal(s: string): nat
    requires AllDigits(s)
    decreases |s|
  {
    if s == [] then 0 else 10 * Decimal(s[..|s| - 1]) + DigitValue(s[|s| - 1])
  }

  /** parseArgs(&pos, &len, &firstFile, argv[1]): a first argument not
      starting with '-' is a file name; otherwise it must be -POS or
      -POS,LEN with both numbers made of digits only. */
  function ParseArgs(flag: string): (r: Result<Args, string>)
    ensures flag == [] || flag[0] != '-' ==> r == Ok(Args(0, INT_MAX, 1))
    ensures flag != [] && flag[0] == '-' && r.Ok? ==> r.value.firstFile == 2
    ensures r.Err? ==> r.error == INVALID_FLAG
  {
    if flag == [] || flag[0] != '-' then Ok(Args(0, INT_MAX, 1))
    else
      var s := flag[1..];
      var n := DigitRun(s);
      if n == 0 then Err(INVALID_FLAG)
      else if n == |s| then Ok(Args(Decimal(s[..n]), INT_MAX, 2))
      else if s[n] != ',' then Err(INVALID_FLAG)
      else
        var t := s[n + 1..];
        var m := DigitRun(t);
        if m == 0 || m < |t| then Err(INVALID_FLAG)
        else Ok(Args(Decimal(s[..n]), Decimal(t[..m]), 2))
  }

  /** "-P" sets pos to P and leaves len at INT_MAX. */
  lemma ParsePos(p: string)
    requires p != [] && AllDigits(p)
    ensures ParseArgs("-" + p) == Ok(Args(Decimal(p), INT_MAX, 2))
  {
    var f := "-" + p;
    assert f[1..] == p;
    assert p[..DigitRun(p)] == p;
  }

  /** "-P,L" sets pos to P and len to L. */
  lemma ParsePosLen(p: string, l: string)
    requires p != [] && AllDigits(p) && l != [] && AllDigits(l)
    ensures ParseArgs("-" + p + "," + l) == Ok(Args(Decimal(p), Decimal(l), 2))
  {
    var f := "-" + p + "," + l;
    var s := f[1..];
    assert s == p + "," + l;
    var n := DigitRun(s);
    assert s[|p|] == ',';
    assert n == |p|;
    assert s[..n] == p;
    assert s[n + 1..] == l;
    assert l[..DigitRun(l)] == l;
  }

  /** Nothing else starting with '-' is accepted: an accepted flag is "-P"
      or "-P,L" (the comma at index c) with the values read off it. */
  lemma ParsedFlag(flag: string) returns (c: nat)
    requires flag != [] && flag[0] == '-' && ParseArgs(flag).Ok?
    ensures 1 < c <= |flag| && AllDigits(flag[1..c])
    ensures c == |flag| ==> ParseArgs(flag).value == Args(Decimal(flag[1..c]), INT_MAX, 2)
    ensures c < |flag| ==>
      && c < |flag| - 1 && flag[c] == ',' && AllDigits(flag[c + 1..])
      && ParseArgs(flag).value == Args(Decimal(flag[1..c]), Decimal(flag[c + 1..]), 2)
  {
    var s := flag[1..];
    var n := DigitRun(s);
    c := n + 1;
    assert flag[1..c] == s[..n];
    if n < |s| {
      var t := s[n + 1..];
      assert flag[c + 1..] == t;
      assert t[..DigitRun(t)] == t;
    }
  }

  // ------------------------------------------------------------------
  // Reading the files: enqueueFiles
  // ------------------------------------------------------------------

  /** One trailing newline removed, if any. */
  function Strip(line: string): string
  {
    if |line| > 0 && line[|line| - 1] == '\n' then line[..|line| - 1] else line
  }

  /** Exactly one trailing newline is removed; a line without one is kept. */
  lemma StripOne(s: string)
    ensures Strip(s + "\n") == s
    ensures s == [] || s[|s| - 1] != '\n' ==> Strip(s) == s
  {
    assert (s + "\n")[..|s|] == s;
  }

  function StripAll(lines: seq<string>): seq<string>
  {
    if lines == [] then [] else StripAll(lines[..|lines| - 1]) + [Strip(lines[|lines| - 1])]
  }

  /** Every named file can be opened. */
  predicate AllExist(files: seq<string>, fs: map<string, seq<string>>)
  {
    forall i :: 0 <= i < |files| ==> files[i] in fs
  }

  /** The lines of the files in order, each stripped of its newline. */
  function AllLines(files: seq<string>, fs: map<string, seq<string>>): seq<string>
  {
    if files == [] then []
    else
      AllLines(files[..|files| - 1], fs)
        + (if files[|files| - 1] in fs then StripAll(fs[files[|files| - 1]]) else [])
  }

  /** One more file that can be opened extends the lines read so far by its
      own lines. */
  lemma NextFile(files: seq<string>, i: nat, fs: map<string, seq<string>>)
    requires i < |files| && files[i] in fs && AllExist(files[..i], fs)
    ensures AllExist(files[..i + 1], fs)
    ensures AllLines(files[..i + 1], fs) == AllLines(files[..i], fs) + StripAll(fs[files[i]])
  {
    assert files[..i + 1][..i] == files[..i];
  }

  /** The pairing state of enqueueFiles after the lines t: the completed pairs
      dealt to P (pc) and Q (qc), left telling where the next pair goes,
      and with an odd count the last line waiting in line1. */
  ghost predicate Pairing(t: seq<string>, pc: seq<string>, qc: seq<string>, nLines: nat,
                          line1: string, left: bool, kr: KeyRange)
  {
    var e := if |t| % 2 == 0 then t else t[..|t| - 1];
    && nLines == |t|
    && pc == Evens(PairRuns(e, kr)) && qc == Odds(PairRuns(e, kr))
    && left == (|PairRuns(e, kr)| % 2 == 0)
    && (|t| % 2 == 1 ==> line1 == t[|t| - 1])
  }

  lemma PairingStart(kr: KeyRange)
    ensures Pairing([], [], [], 0, "", true, kr)
  {
  }

  lemma PairingWait(t: seq<string>, pc: seq<string>, qc: seq<string>, nLines: nat,
                    line1: string, left: bool, x: string, kr: KeyRange)
    requires Pairing(t, pc, qc, nLines, line1, left, kr) && nLines % 2 == 0
    ensures Pairing(t + [x], pc, qc, nLines + 1, x, left, kr)
  {
    assert (t + [x])[..|t|] == t;
  }

  lemma PairingPair(t: seq<string>, pc: seq<string>, qc: seq<string>, nLines: nat,
                    line1: string, left: bool, x: string, line: string, kr: KeyRange)
    requires Pairing(t, pc, qc, nLines, line1, left, kr) && nLines % 2 == 1
    ensures Pairing(t + [x], pc + (if left then Sort2(line1, x, kr) else []),
                    qc + (if left then [] else Sort2(line1, x, kr)), nLines + 1, line, !left, kr)
  {
    var e := t[..|t| - 1];
    assert t + [x] == e + [line1, x];
    PairRunsAppend(e, [line1, x], kr);
    DealAppend(PairRuns(e, kr), Sort2(line1, x, kr));
  }

  lemma PairingLast(t: seq<string>, pc: seq<string>, qc: seq<string>, nLines: nat,
                    line1: string, left: bool, kr: KeyRange)
    requires Pairing(t, pc, qc, nLines, line1, left, kr) && nLines % 2 == 1
    ensures Evens(PairRuns(t, kr)) == pc + (if left then [line1] else [])
    ensures Odds(PairRuns(t, kr)) == qc + (if left then [] else [line1])
  {
    var e := t[..|t| - 1];
    assert t == e + [line1];
    PairRunsAppend(e, [line1], kr);
    DealAppend(PairRuns(e, kr), [line1]);
  }

  /** P and Q are two well-formed queues that share no node. */
  ghost predicate Queues(P: Queue, Q: Queue)
    reads P, Q, P.Repr, Q.Repr
  {
    P.Valid() && Q.Valid() && P.Repr !! Q.Repr
  }

  /** safeAddQ into P when toP, else into Q. */
  method Emit(P: Queue, Q: Queue, toP: bool, line: string)
    requires Queues(P, Q)
    modifies P.Repr, Q.Repr
    ensures Queues(P, Q) && fresh(P.Repr - old(P.Repr)) && fresh(Q.Repr - old(Q.Repr))
    ensures P.Contents == old(P.Contents) + (if toP then [line] else [])
    ensures Q.Contents == old(Q.Contents) + (if toP then [] else [line])
  {
    if toP {
      P.AddQ(line);
    } else {
      Q.AddQ(line);
    }
  }

  /** The two lines of a pair into queue X, the smaller first (the first on
      a tie). */
  method AddPair(X: Queue, line1: string, line2: string, kr: KeyRange)
    requires X.Valid()
    modifies X.Repr
    ensures X.Valid() && fresh(X.Repr - old(X.Repr))
    ensures X.Contents == old(X.Contents) + Sort2(line1, line2, kr)
  {
    ghost var R := X.Repr;
    if Greater(line1, line2, kr) {
      X.AddQ(line2);
      ghost var R1 := X.Repr;
      X.AddQ(line1);
      assert fresh(X.Repr - R) by { assert X.Repr - R <= (X.Repr - R1) + (R1 - R); }
    } else {
      X.AddQ(line1);
      ghost var R1 := X.Repr;
      X.AddQ(line2);
      assert fresh(X.Repr - R) by { assert X.Repr - R <= (X.Repr - R1) + (R1 - R); }
    }
  }

  /** The body of the getLine loop of enqueueFiles for one line. */
  method EnqueueLine(P: Queue, Q: Queue, raw: string, nLines: nat, line1: string, left: bool,
                     pLen: nat, qLen: nat, kr: KeyRange, ghost t: seq<string>)
    returns (nLines': nat, line1': string, left': bool, pLen': nat, qLen': nat)
    requires Queues(P, Q)
    requires Pairing(t, P.Contents, Q.Contents, nLines, line1, left, kr)
    requires pLen == |P.Contents| && qLen == |Q.Contents|
    modifies P.Repr, Q.Repr
    ensures Queues(P, Q) && fresh(P.Repr - old(P.Repr)) && fresh(Q.Repr - old(Q.Repr))
    ensures Pairing(t + [Strip(raw)], P.Contents, Q.Contents, nLines', line1', left', kr)
    ensures pLen' == |P.Contents| && qLen' == |Q.Contents|
  {
    var line := Strip(raw);
    if nLines % 2 == 0 {
      PairingWait(t, P.Contents, Q.Contents, nLines, line1, left, line, kr);
      nLines', line1', left', pLen', qLen' := nLines + 1, line, left, pLen, qLen;
    } else {
      PairingPair(t, P.Contents, Q.Contents, nLines, line1, left, line, line1, kr);
      nLines' := nLines + 1;
      line1' := line1;
      if left {
        AddPair(P, line1, line, kr);
      } else {
        AddPair(Q, line1, line, kr);
      }
      if left {
        pLen', qLen' := pLen + 2, qLen;
      } else {
        pLen', qLen' := pLen, qLen + 2;
      }
      left' := !left;
    }
  }

  /** One pass of the getLine loop over the j-th line of a file. */
  method ReadLine(P: Queue, Q: Queue, lines: seq<string>, j: nat, nLines: nat, line1: string,
                  left: bool, pLen: nat, qLen: nat, kr: KeyRange, ghost t: seq<string>)
    returns (nLines': nat, line1': string, left': bool, pLen': nat, qLen': nat)
    requires j < |lines| && Queues(P, Q)
    requires Pairing(t + StripAll(lines[..j]), P.Contents, Q.Contents, nLines, line1, left, kr)
    requires pLen == |P.Contents| && qLen == |Q.Contents|
    modifies P.Repr, Q.Repr
    ensures Queues(P, Q) && fresh(P.Repr - old(P.Repr)) && fresh(Q.Repr - old(Q.Repr))
    ensures Pairing(t + StripAll(lines[..j + 1]), P.Contents, Q.Contents, nLines', line1', left', kr)
    ensures pLen' == |P.Contents| && qLen' == |Q.Contents|
  {
    assert lines[..j + 1][..j] == lines[..j];
    assert StripAll(lines[..j + 1]) == StripAll(lines[..j]) + [Strip(lines[j])];
    assert t + StripAll(lines[..j + 1]) == (t + StripAll(lines[..j])) + [Strip(lines[j])];
    nLines', line1', left', pLen', qLen' :=
      EnqueueLine(P, Q, lines[j], nLines, line1, left, pLen, qLen, kr, t + StripAll(lines[..j]));
  }

  /** The lines of one file. */
  method EnqueueFile(P: Queue, Q: Queue, lines: seq<string>, nLines: nat, line1: string,
                     left: bool, pLen: nat, qLen: nat, kr: KeyRange, ghost t: seq<string>)
    returns (nLines': nat, line1': string, left': bool, pLen': nat, qLen': nat)
    requires Queues(P, Q)
    requires Pairing(t, P.Contents, Q.Contents, nLines, line1, left, kr)
    requires pLen == |P.Contents| && qLen == |Q.Contents|
    modifies P.Repr, Q.Repr
    ensures Queues(P, Q) && fresh(P.Repr - old(P.Repr)) && fresh(Q.Repr - old(Q.Repr))
    ensures Pairing(t + StripAll(lines), P.Contents, Q.Contents, nLines', line1', left', kr)
    ensures pLen' == |P.Contents| && qLen' == |Q.Contents|
  {
    nLines', line1', left', pLen', qLen' := nLines, line1, left, pLen, qLen;
    var j := 0;
    assert t + StripAll(lines[..0]) == t;
    while j < |lines|
      invariant 0 <= j <= |lines|
      invariant Queues(P, Q) && fresh(P.Repr - old(P.Repr)) && fresh(Q.Repr - old(Q.Repr))
      invariant Pairing(t + StripAll(lines[..j]), P.Contents, Q.Contents, nLines', line1', left', kr)
      invariant pLen' == |P.Contents| && qLen' == |Q.Contents|
    {
      ghost var RP, RQ := P.Repr, Q.Repr;
      nLines', line1', left', pLen', qLen' :=
        ReadLine(P, Q, lines, j, nLines', line1', left', pLen', qLen', kr, t);
      assert fresh(P.Repr - old(P.Repr)) by { assert P.Repr - old(P.Repr) <= (P.Repr - RP) + (RP - old(P.Repr)); }
      assert fresh(Q.Repr - old(Q.Repr)) by { assert Q.Repr - old(Q.Repr) <= (Q.Repr - RQ) + (RQ - old(Q.Repr)); }
      j := j + 1;
    }
    assert lines[..j] == lines;
  }

  /** One pass of the file loop of enqueueFiles: the lines of the i-th file,
      which can be opened. */
  method ReadFile(P: Queue, Q: Queue, files: seq<string>, i: nat, fs: map<string, seq<string>>,
                  nLines: nat, line1: string, left: bool, pLen: nat, qLen: nat, kr: KeyRange)
    returns (nLines': nat, line1': string, left': bool, pLen': nat, qLen': nat)
    requires i < |files| && files[i] in fs && AllExist(files[..i], fs)
    requires Queues(P, Q)
    requires Pairing(AllLines(files[..i], fs), P.Contents, Q.Contents, nLines, line1, left, kr)
    requires pLen == |P.Contents| && qLen == |Q.Contents|
    modifies P.Repr, Q.Repr
    ensures AllExist(files[..i + 1], fs)
    ensures Queues(P, Q) && fresh(P.Repr - old(P.Repr)) && fresh(Q.Repr - old(Q.Repr))
    ensures Pairing(AllLines(files[..i + 1], fs), P.Contents, Q.Contents, nLines', line1', left', kr)
    ensures pLen' == |P.Contents| && qLen' == |Q.Contents|
  {
    NextFile(files, i, fs);
    nLines', line1', left', pLen', qLen' :=
      EnqueueFile(P, Q, fs[files[i]], nLines, line1, left, pLen, qLen, kr, AllLines(files[..i], fs));
  }

  /** The file loop of enqueueFiles: stops at the first file that cannot be
      opened; otherwise every line has been paired, the last one of an odd
      count still waiting in line1. */
  method ReadFiles(P: Queue, Q: Queue, files: seq<string>, fs: map<string, seq<string>>,
                   kr: KeyRange)
    returns (ok: bool, nLines: nat, line1: string, left: bool, pLen: nat, qLen: nat)
    requires Queues(P, Q) && P.Contents == [] && Q.Contents == []
    modifies P.Repr, Q.Repr
    ensures Queues(P, Q) && fresh(P.Repr - old(P.Repr)) && fresh(Q.Repr - old(Q.Repr))
    ensures ok <==> AllExist(files, fs)
    ensures ok ==> Pairing(AllLines(files, fs), P.Contents, Q.Contents, nLines, line1, left, kr)
    ensures pLen == |P.Contents| && qLen == |Q.Contents|
  {
    nLines, line1, left := 0, "", true;
    pLen, qLen := 0, 0;
    PairingStart(kr);
    var i := 0;
    while i < |files| && files[i] in fs
      invariant 0 <= i <= |files|
      invariant AllExist(files[..i], fs)
      invariant Queues(P, Q) && fresh(P.Repr - old(P.Repr)) && fresh(Q.Repr - old(Q.Repr))
      invariant Pairing(AllLines(files[..i], fs), P.Contents, Q.Contents, nLines, line1, left, kr)
      invariant pLen == |P.Contents| && qLen == |Q.Contents|
    {
      ghost var RP, RQ := P.Repr, Q.Repr;
      nLines, line1, left, pLen, qLen := ReadFile(P, Q, files, i, fs, nLines, line1, left, pLen, qLen, kr);
      assert fresh(P.Repr - old(P.Repr)) by { assert P.Repr - old(P.Repr) <= (P.Repr - RP) + (RP - old(P.Repr)); }
      assert fresh(Q.Repr - old(Q.Repr)) by { assert Q.Repr - old(Q.Repr) <= (Q.Repr - RQ) + (RQ - old(Q.Repr)); }
      i := i + 1;
    }
    ok := i == |files|;
    if ok {
      assert files[..i] == files;
    }
  }

  /** The end of enqueueFiles: a last line without a partner is a run of its
      own. */
  method FlushLast(P: Queue, Q: Queue, nLines: nat, line1: string, left: bool,
                   pLen: nat, qLen: nat, kr: KeyRange, ghost t: seq<string>)
    returns (pLen': nat, qLen': nat)
    requires Queues(P, Q)
    requires Pairing(t, P.Contents, Q.Contents, nLines, line1, left, kr)
    requires pLen == |P.Contents| && qLen == |Q.Contents|
    modifies P.Repr, Q.Repr
    ensures Queues(P, Q) && fresh(P.Repr - old(P.Repr)) && fresh(Q.Repr - old(Q.Repr))
    ensures P.Contents == Evens(PairRuns(t, kr)) && Q.Contents == Odds(PairRuns(t, kr))
    ensures pLen' == |P.Contents| && qLen' == |Q.Contents|
  {
    pLen', qLen' := pLen, qLen;
    if nLines % 2 == 1 {
      PairingLast(t, P.Contents, Q.Contents, nLines, line1, left, kr);
      Emit(P, Q, left, line1);
      if left {
        pLen' := pLen + 1;
      } else {
        qLen' := qLen + 1;
      }
    }
  }

  /** enqueueFiles: reads the files in order, pairing the lines; fails when a
      file cannot be opened. Afterwards P and Q hold the runs of two, P the
      first, third, ... and Q the second, fourth, .... */
  method EnqueueFiles(P: Queue, Q: Queue, files: seq<string>, fs: map<string, seq<string>>,
                      kr: KeyRange)
    returns (ok: bool, pLen: nat, qLen: nat)
    requires Queues(P, Q) && P.Contents == [] && Q.Contents == []
    modifies P.Repr, Q.Repr
    ensures Queues(P, Q) && fresh(P.Repr - old(P.Repr)) && fresh(Q.Repr - old(Q.Repr))
    ensures ok <==> AllExist(files, fs)
    ensures ok ==> P.Contents == Evens(PairRuns(AllLines(files, fs), kr))
    ensures ok ==> Q.Contents == Odds(PairRuns(AllLines(files, fs), kr))
    ensures pLen == |P.Contents| && qLen == |Q.Contents|
  {
    var nLines, line1, left;
    ok, nLines, line1, left, pLen, qLen := ReadFiles(P, Q, files, fs, kr);
    if ok {
      ghost var RP, RQ := P.Repr, Q.Repr;
      pLen, qLen := FlushLast(P, Q, nLines, line1, left, pLen, qLen, kr, AllLines(files, fs));
      assert fresh(P.Repr - old(P.Repr)) by { assert P.Repr - old(P.Repr) <= (P.Repr - RP) + (RP - old(P.Repr)); }
      assert fresh(Q.Repr - old(Q.Repr)) by { assert Q.Repr - old(Q.Repr) <= (Q.Repr - RQ) + (RQ - old(Q.Repr)); }
    }
  }

  // ------------------------------------------------------------------
  // The merge passes of main
  // ------------------------------------------------------------------

  /** The queues while a subgroup is merged: P holds what is left of a, then
      the later runs of this pass, then (when left) the merged lines so far;
      Q likewise with b. */
  ghost predicate Group(pc: seq<string>, qc: seq<string>, ra: seq<string>, rb: seq<string>,
                        restP: seq<string>, restQ: seq<string>, out: seq<string>, left: bool)
  {
    && pc == ra + restP + (if left then out else [])
    && qc == rb + restQ + (if left then [] else out)
  }

  lemma GroupHeads(pc: seq<string>, qc: seq<string>, ra: seq<string>, rb: seq<string>,
                   restP: seq<string>, restQ: seq<string>, out: seq<string>, left: bool)
    requires Group(pc, qc, ra, rb, restP, restQ, out, left)
    ensures ra != [] ==> pc != [] && pc[0] == ra[0]
    ensures rb != [] ==> qc != [] && qc[0] == rb[0]
  {
  }

  lemma MergingStart(pc: seq<string>, qc: seq<string>, a: seq<string>, b: seq<string>,
                     restP: seq<string>, restQ: seq<string>, left: bool, kr: KeyRange)
    requires pc == a + restP && qc == b + restQ
    ensures Merging(pc, qc, a, b, a, b, restP, restQ, [], left, kr)
  {
    assert a + restP + [] == pc && b + restQ + [] == qc;
  }

  lemma MergingDone(pc: seq<string>, qc: seq<string>, a: seq<string>, b: seq<string>,
                    restP: seq<string>, restQ: seq<string>, out: seq<string>, left: bool, kr: KeyRange)
    requires Merging(pc, qc, a, b, [], [], restP, restQ, out, left, kr)
    ensures pc == restP + (if left then Merge(a, b, kr) else [])
    ensures qc == restQ + (if left then [] else Merge(a, b, kr))
  {
    assert out == Merge(a, b, kr);
    GroupDone(pc, qc, restP, restQ, out, left);
  }

  lemma GroupDone(pc: seq<string>, qc: seq<string>, restP: seq<string>, restQ: seq<string>,
                  out: seq<string>, left: bool)
    requires Group(pc, qc, [], [], restP, restQ, out, left)
    ensures pc == restP + (if left then out else [])
    ensures qc == restQ + (if left then [] else out)
  {
    assert [] + restP == restP && [] + restQ == restQ;
  }

  /** Moving the head of a (fromP) or of b to the end of the output queue. */
  lemma GroupTake(pc: seq<string>, qc: seq<string>, ra: seq<string>, rb: seq<string>,
                  restP: seq<string>, restQ: seq<string>, out: seq<string>, left: bool,
                  fromP: bool, x: string)
    requires Group(pc, qc, ra, rb, restP, restQ, out, left)
    requires fromP ==> ra != [] && x == ra[0]
    requires !fromP ==> rb != [] && x == rb[0]
    ensures Group((if fromP then pc[1..] else pc) + (if left then [x] else []),
                  (if fromP then qc else qc[1..]) + (if left then [] else [x]),
                  if fromP then ra[1..] else ra, if fromP then rb else rb[1..],
                  restP, restQ, out + [x], left)
  {
    if fromP {
      assert pc[1..] == ra[1..] + restP + (if left then out else []);
    } else {
      assert qc[1..] == rb[1..] + restQ + (if left then [] else out);
    }
  }

  /** The next merged line is the head of ra unless the head of ra compares
      greater than the head of rb. */
  lemma MergeTake(ra: seq<string>, rb: seq<string>, out: seq<string>, m: seq<string>,
                  fromP: bool, kr: KeyRange)
    requires out + Merge(ra, rb, kr) == m
    requires fromP ==> ra != [] && (rb == [] || !Greater(ra[0], rb[0], kr))
    requires !fromP ==> rb != [] && (ra == [] || Greater(ra[0], rb[0], kr))
    ensures fromP ==> (out + [ra[0]]) + Merge(ra[1..], rb, kr) == m
    ensures !fromP ==> (out + [rb[0]]) + Merge(ra, rb[1..], kr) == m
  {
  }

  /** safeRemoveQ from P (fromP) or Q, then safeAddQ of that line into P
      (left) or Q. */
  method Move(P: Queue, Q: Queue, fromP: bool, left: bool) returns (line: string)
    requires Queues(P, Q)
    requires fromP ==> P.Contents != []
    requires !fromP ==> Q.Contents != []
    modifies P.Repr, Q.Repr
    ensures Queues(P, Q) && fresh(P.Repr - old(P.Repr)) && fresh(Q.Repr - old(Q.Repr))
    ensures line == if fromP then old(P.Contents)[0] else old(Q.Contents)[0]
    ensures P.Contents == (if fromP then old(P.Contents)[1..] else old(P.Contents)) + (if left then [line] else [])
    ensures Q.Contents == (if fromP then old(Q.Contents) else old(Q.Contents)[1..]) + (if left then [] else [line])
  {
    var ok;
    if fromP {
      ok, line := P.RemoveQ();
    } else {
      ok, line := Q.RemoveQ();
    }
    Emit(P, Q, left, line);
  }

  /** The merge of a subgroup so far: the queues as Group says, and the lines
      moved so far followed by the merge of what is left make the merge of
      a and b. */
  ghost predicate Merging(pc: seq<string>, qc: seq<string>, a: seq<string>, b: seq<string>,
                          ra: seq<string>, rb: seq<string>, restP: seq<string>, restQ: seq<string>,
                          out: seq<string>, left: bool, kr: KeyRange)
  {
    Group(pc, qc, ra, rb, restP, restQ, out, left) && out + Merge(ra, rb, kr) == Merge(a, b, kr)
  }

  /** The counters of one side: sub lines of this subgroup and s lines of
      this pass were taken, r is what is left of the subgroup's run, and
      the test sub < groupSize && s < len holds exactly while r is not
      empty. */
  ghost predicate Window(sub: nat, s: nat, len: nat, groupSize: nat, r: seq<string>)
  {
    sub <= s && |r| + sub <= groupSize && (|r| + sub == groupSize || s + |r| == len) && s + |r| <= len
  }

  lemma WindowTest(sub: nat, s: nat, len: nat, groupSize: nat, r: seq<string>)
    requires Window(sub, s, len, groupSize, r)
    ensures (sub < groupSize && s < len) <==> r != []
  {
  }

  /** Taking n0 - n lines advances both counters by as much. */
  ghost predicate Moved(sub0: nat, s0: nat, n0: nat, sub: nat, s: nat, n: nat)
  {
    n <= n0 && sub + n == sub0 + n0 && s + n == s0 + n0
  }

  /** The lines output went to P (left) or Q and were counted there. */
  ghost predicate Emitted(p0: nat, q0: nat, o0: nat, p: nat, q: nat, o: nat, left: bool)
  {
    && o0 <= o
    && (left ==> p + o0 == p0 + o && q == q0)
    && (!left ==> q + o0 == q0 + o && p == p0)
  }

  /** One round of the first inner loop: headQ on both queues, the line of
      Q is taken only when the line of P compares greater, and it goes to P
      (left) or Q. */
  method HeadStep(P: Queue, Q: Queue, groupSize: nat, left: bool, pLen: nat, qLen: nat,
                  kr: KeyRange, ghost a: seq<string>, ghost b: seq<string>,
                  ghost restP: seq<string>, ghost restQ: seq<string>,
                  subP: nat, subQ: nat, sP: nat, sQ: nat, pN: nat, qN: nat,
                  ghost ra: seq<string>, ghost rb: seq<string>, ghost out: seq<string>)
    returns (subP': nat, subQ': nat, sP': nat, sQ': nat, pN': nat, qN': nat,
             ghost ra': seq<string>, ghost rb': seq<string>, ghost out': seq<string>)
    requires Queues(P, Q) && ra != [] && rb != []
    requires Merging(P.Contents, Q.Contents, a, b, ra, rb, restP, restQ, out, left, kr)
    requires Window(subP, sP, pLen, groupSize, ra) && Window(subQ, sQ, qLen, groupSize, rb)
    modifies P.Repr, Q.Repr
    ensures Queues(P, Q) && fresh(P.Repr - old(P.Repr)) && fresh(Q.Repr - old(Q.Repr))
    ensures Merging(P.Contents, Q.Contents, a, b, ra', rb', restP, restQ, out', left, kr)
    ensures Window(subP', sP', pLen, groupSize, ra') && Window(subQ', sQ', qLen, groupSize, rb')
    ensures Moved(subP, sP, |ra|, subP', sP', |ra'|) && Moved(subQ, sQ, |rb|, subQ', sQ', |rb'|)
    ensures Emitted(pN, qN, |out|, pN', qN', |out'|, left)
    ensures |out'| == |out| + 1 && |ra'| + |rb'| + 1 == |ra| + |rb|
  {
    GroupHeads(P.Contents, Q.Contents, ra, rb, restP, restQ, out, left);
    var okP, pLine := P.HeadQ();
    var okQ, qLine := Q.HeadQ();
    var line;
    var fromP := !Greater(pLine, qLine, kr);
    MergeTake(ra, rb, out, Merge(a, b, kr), fromP, kr);
    GroupTake(P.Contents, Q.Contents, ra, rb, restP, restQ, out, left, fromP, if fromP then pLine else qLine);
    subP', subQ', sP', sQ', ra', rb' := subP, subQ, sP, sQ, ra, rb;
    if !fromP {
      line := Move(P, Q, false, left);
      subQ', sQ' := subQ + 1, sQ + 1;
      rb' := rb[1..];
    } else {
      line := Move(P, Q, true, left);
      subP', sP' := subP + 1, sP + 1;
      ra' := ra[1..];
    }
    out' := out + [line];
    if left {
      pN', qN' := pN + 1, qN;
    } else {
      pN', qN' := pN, qN + 1;
    }
  }

  /** The first inner loop: lines from both queues while both runs last. */
  method MergeHeads(P: Queue, Q: Queue, groupSize: nat, left: bool, pLen: nat, qLen: nat,
                    kr: KeyRange, ghost a: seq<string>, ghost b: seq<string>,
                    ghost restP: seq<string>, ghost restQ: seq<string>,
                    subP0: nat, subQ0: nat, sP0: nat, sQ0: nat, pN0: nat, qN0: nat,
                    ghost ra0: seq<string>, ghost rb0: seq<string>, ghost out0: seq<string>)
    returns (subSortedP: nat, subSortedQ: nat, sortedP: nat, sortedQ: nat,
             pLenNext: nat, qLenNext: nat,
             ghost ra: seq<string>, ghost rb: seq<string>, ghost out: seq<string>)
    requires Queues(P, Q)
    requires Merging(P.Contents, Q.Contents, a, b, ra0, rb0, restP, restQ, out0, left, kr)
    requires Window(subP0, sP0, pLen, groupSize, ra0) && Window(subQ0, sQ0, qLen, groupSize, rb0)
    modifies P.Repr, Q.Repr
    ensures Queues(P, Q) && fresh(P.Repr - old(P.Repr)) && fresh(Q.Repr - old(Q.Repr))
    ensures Merging(P.Contents, Q.Contents, a, b, ra, rb, restP, restQ, out, left, kr)
    ensures Window(subSortedP, sortedP, pLen, groupSize, ra)
    ensures Window(subSortedQ, sortedQ, qLen, groupSize, rb)
    ensures Moved(subP0, sP0, |ra0|, subSortedP, sortedP, |ra|)
    ensures Moved(subQ0, sQ0, |rb0|, subSortedQ, sortedQ, |rb|)
    ensures Emitted(pN0, qN0, |out0|, pLenNext, qLenNext, |out|, left)
    ensures |out| + |ra| + |rb| == |out0| + |ra0| + |rb0|
    ensures ra == [] || rb == []
  {
    subSortedP, subSortedQ, sortedP, sortedQ, pLenNext, qLenNext := subP0, subQ0, sP0, sQ0, pN0, qN0;
    ra, rb, out := ra0, rb0, out0;
    WindowTest(subSortedP, sortedP, pLen, groupSize, ra);
    WindowTest(subSortedQ, sortedQ, qLen, groupSize, rb);
    while subSortedP < groupSize && subSortedQ < groupSize && sortedP < pLen && sortedQ < qLen
      invariant Queues(P, Q) && fresh(P.Repr - old(P.Repr)) && fresh(Q.Repr - old(Q.Repr))
      invariant Merging(P.Contents, Q.Contents, a, b, ra, rb, restP, restQ, out, left, kr)
      invariant Window(subSortedP, sortedP, pLen, groupSize, ra)
      invariant Window(subSortedQ, sortedQ, qLen, groupSize, rb)
      invariant (subSortedP < groupSize && sortedP < pLen) <==> ra != []
      invariant (subSortedQ < groupSize && sortedQ < qLen) <==> rb != []
      invariant Moved(subP0, sP0, |ra0|, subSortedP, sortedP, |ra|)
      invariant Moved(subQ0, sQ0, |rb0|, subSortedQ, sortedQ, |rb|)
      invariant Emitted(pN0, qN0, |out0|, pLenNext, qLenNext, |out|, left)
      invariant |out| + |ra| + |rb| == |out0| + |ra0| + |rb0|
      decreases |ra| + |rb|
    {
      ghost var RP, RQ := P.Repr, Q.Repr;
      subSortedP, subSortedQ, sortedP, sortedQ, pLenNext, qLenNext, ra, rb, out :=
        HeadStep(P, Q, groupSize, left, pLen, qLen, kr, a, b, restP, restQ,
                 subSortedP, subSortedQ, sortedP, sortedQ, pLenNext, qLenNext, ra, rb, out);
      assert fresh(P.Repr - old(P.Repr)) by { assert P.Repr - old(P.Repr) <= (P.Repr - RP) + (RP - old(P.Repr)); }
      assert fresh(Q.Repr - old(Q.Repr)) by { assert Q.Repr - old(Q.Repr) <= (Q.Repr - RQ) + (RQ - old(Q.Repr)); }
      WindowTest(subSortedP, sortedP, pLen, groupSize, ra);
      WindowTest(subSortedQ, sortedQ, qLen, groupSize, rb);
    }
  }

  /** One pass of a loop that drains the rest of one subgroup: its head line
      r[0] (from P when fromP, else from Q) goes to the output queue. */
  method DrainStep(P: Queue, Q: Queue, fromP: bool, left: bool, kr: KeyRange,
                   ghost a: seq<string>, ghost b: seq<string>,
                   ghost restP: seq<string>, ghost restQ: seq<string>,
                   pN: nat, qN: nat, ghost r: seq<string>, ghost out: seq<string>)
    returns (pN': nat, qN': nat, ghost r': seq<string>, ghost out': seq<string>)
    requires Queues(P, Q) && r != []
    requires fromP ==> Merging(P.Contents, Q.Contents, a, b, r, [], restP, restQ, out, left, kr)
    requires !fromP ==> Merging(P.Contents, Q.Contents, a, b, [], r, restP, restQ, out, left, kr)
    modifies P.Repr, Q.Repr
    ensures Queues(P, Q) && fresh(P.Repr - old(P.Repr)) && fresh(Q.Repr - old(Q.Repr))
    ensures fromP ==> Merging(P.Contents, Q.Contents, a, b, r', [], restP, restQ, out', left, kr)
    ensures !fromP ==> Merging(P.Contents, Q.Contents, a, b, [], r', restP, restQ, out', left, kr)
    ensures Emitted(pN, qN, |out|, pN', qN', |out'|, left)
    ensures r' == r[1..] && |out'| == |out| + 1
  {
    if fromP {
      MergeTake(r, [], out, Merge(a, b, kr), true, kr);
      GroupTake(P.Contents, Q.Contents, r, [], restP, restQ, out, left, true, r[0]);
    } else {
      MergeTake([], r, out, Merge(a, b, kr), false, kr);
      GroupTake(P.Contents, Q.Contents, [], r, restP, restQ, out, left, false, r[0]);
    }
    var line := Move(P, Q, fromP, left);
    r' := r[1..];
    out' := out + [line];
    if left {
      pN', qN' := pN + 1, qN;
    } else {
      pN', qN' := pN, qN + 1;
    }
  }

  /** The second inner loop: the rest of P's run once Q's run is used up. */
  method DrainP(P: Queue, Q: Queue, groupSize: nat, left: bool, pLen: nat,
                kr: KeyRange, ghost a: seq<string>, ghost b: seq<string>,
                ghost restP: seq<string>, ghost restQ: seq<string>,
                subP0: nat, sP0: nat, pN0: nat, qN0: nat,
                ghost ra0: seq<string>, ghost rb: seq<string>, ghost out0: seq<string>)
    returns (subSortedP: nat, sortedP: nat, pLenNext: nat, qLenNext: nat,
             ghost out: seq<string>)
    requires Queues(P, Q)
    requires ra0 != [] ==> rb == []
    requires Merging(P.Contents, Q.Contents, a, b, ra0, rb, restP, restQ, out0, left, kr)
    requires Window(subP0, sP0, pLen, groupSize, ra0)
    modifies P.Repr, Q.Repr
    ensures Queues(P, Q) && fresh(P.Repr - old(P.Repr)) && fresh(Q.Repr - old(Q.Repr))
    ensures Merging(P.Contents, Q.Contents, a, b, [], rb, restP, restQ, out, left, kr)
    ensures Window(subSortedP, sortedP, pLen, groupSize, [])
    ensures Moved(subP0, sP0, |ra0|, subSortedP, sortedP, 0)
    ensures Emitted(pN0, qN0, |out0|, pLenNext, qLenNext, |out|, left)
    ensures |out| == |out0| + |ra0|
  {
    subSortedP, sortedP, pLenNext, qLenNext := subP0, sP0, pN0, qN0;
    ghost var ra := ra0;
    out := out0;
    WindowTest(subSortedP, sortedP, pLen, groupSize, ra);
    while subSortedP < groupSize && sortedP < pLen
      invariant Queues(P, Q) && fresh(P.Repr - old(P.Repr)) && fresh(Q.Repr - old(Q.Repr))
      invariant ra != [] ==> rb == []
      invariant Merging(P.Contents, Q.Contents, a, b, ra, rb, restP, restQ, out, left, kr)
      invariant Window(subSortedP, sortedP, pLen, groupSize, ra)
      invariant (subSortedP < groupSize && sortedP < pLen) <==> ra != []
      invariant Moved(subP0, sP0, |ra0|, subSortedP, sortedP, |ra|)
      invariant Emitted(pN0, qN0, |out0|, pLenNext, qLenNext, |out|, left)
      invariant |out| + |ra| == |out0| + |ra0|
      decreases |ra|
    {
      ghost var RP, RQ := P.Repr, Q.Repr;
      pLenNext, qLenNext, ra, out :=
        DrainStep(P, Q, true, left, kr, a, b, restP, restQ, pLenNext, qLenNext, ra, out);
      assert fresh(P.Repr - old(P.Repr)) by { assert P.Repr - old(P.Repr) <= (P.Repr - RP) + (RP - old(P.Repr)); }
      assert fresh(Q.Repr - old(Q.Repr)) by { assert Q.Repr - old(Q.Repr) <= (Q.Repr - RQ) + (RQ - old(Q.Repr)); }
      subSortedP, sortedP := subSortedP + 1, sortedP + 1;
      WindowTest(subSortedP, sortedP, pLen, groupSize, ra);
    }
  }

  /** The third inner loop: the rest of Q's run once P's run is used up. */
  method DrainQ(P: Queue, Q: Queue, groupSize: nat, left: bool, qLen: nat,
                kr: KeyRange, ghost a: seq<string>, ghost b: seq<string>,
                ghost restP: seq<string>, ghost restQ: seq<string>,
                subQ0: nat, sQ0: nat, pN0: nat, qN0: nat,
                ghost rb0: seq<string>, ghost out0: seq<string>)
    returns (subSortedQ: nat, sortedQ: nat, pLenNext: nat, qLenNext: nat,
             ghost out: seq<string>)
    requires Queues(P, Q)
    requires Merging(P.Contents, Q.Contents, a, b, [], rb0, restP, restQ, out0, left, kr)
    requires Window(subQ0, sQ0, qLen, groupSize, rb0)
    modifies P.Repr, Q.Repr
    ensures Queues(P, Q) && fresh(P.Repr - old(P.Repr)) && fresh(Q.Repr - old(Q.Repr))
    ensures Merging(P.Contents, Q.Contents, a, b, [], [], restP, restQ, out, left, kr)
    ensures Moved(subQ0, sQ0, |rb0|, subSortedQ, sortedQ, 0)
    ensures Emitted(pN0, qN0, |out0|, pLenNext, qLenNext, |out|, left)
    ensures |out| == |out0| + |rb0|
  {
    subSortedQ, sortedQ, pLenNext, qLenNext := subQ0, sQ0, pN0, qN0;
    ghost var rb := rb0;
    out := out0;
    WindowTest(subSortedQ, sortedQ, qLen, groupSize, rb);
    while subSortedQ < groupSize && sortedQ < qLen
      invariant Queues(P, Q) && fresh(P.Repr - old(P.Repr)) && fresh(Q.Repr - old(Q.Repr))
      invariant Merging(P.Contents, Q.Contents, a, b, [], rb, restP, restQ, out, left, kr)
      invariant Window(subSortedQ, sortedQ, qLen, groupSize, rb)
      invariant (subSortedQ < groupSize && sortedQ < qLen) <==> rb != []
      invariant Moved(subQ0, sQ0, |rb0|, subSortedQ, sortedQ, |rb|)
      invariant Emitted(pN0, qN0, |out0|, pLenNext, qLenNext, |out|, left)
      invariant |out| + |rb| == |out0| + |rb0|
      decreases |rb|
    {
      ghost var RP, RQ := P.Repr, Q.Repr;
      pLenNext, qLenNext, rb, out :=
        DrainStep(P, Q, false, left, kr, a, b, restP, restQ, pLenNext, qLenNext, rb, out);
      assert fresh(P.Repr - old(P.Repr)) by { assert P.Repr - old(P.Repr) <= (P.Repr - RP) + (RP - old(P.Repr)); }
      assert fresh(Q.Repr - old(Q.Repr)) by { assert Q.Repr - old(Q.Repr) <= (Q.Repr - RQ) + (RQ - old(Q.Repr)); }
      subSortedQ, sortedQ := subSortedQ + 1, sortedQ + 1;
      WindowTest(subSortedQ, sortedQ, qLen, groupSize, rb);
    }
  }

  /** One subgroup of a pass (the three inner loops of main): the next |a|
      lines of P and |b| lines of Q are merged and appended to P when left,
      to Q otherwise. The counters stop the loops exactly after a and b. */
  method MergeGroup(P: Queue, Q: Queue, groupSize: nat, left: bool, pLen: nat, qLen: nat,
                    sortedP: nat, sortedQ: nat, pLenNext: nat, qLenNext: nat, kr: KeyRange,
                    ghost a: seq<string>, ghost b: seq<string>,
                    ghost restP: seq<string>, ghost restQ: seq<string>)
    returns (sortedP': nat, sortedQ': nat, pLenNext': nat, qLenNext': nat)
    requires Queues(P, Q)
    requires P.Contents == a + restP && Q.Contents == b + restQ
    requires |a| <= groupSize && (|a| == groupSize || sortedP + |a| == pLen) && sortedP + |a| <= pLen
    requires |b| <= groupSize && (|b| == groupSize || sortedQ + |b| == qLen) && sortedQ + |b| <= qLen
    modifies P.Repr, Q.Repr
    ensures Queues(P, Q) && fresh(P.Repr - old(P.Repr)) && fresh(Q.Repr - old(Q.Repr))
    ensures P.Contents == restP + (if left then Merge(a, b, kr) else [])
    ensures Q.Contents == restQ + (if left then [] else Merge(a, b, kr))
    ensures sortedP' == sortedP + |a| && sortedQ' == sortedQ + |b|
    ensures pLenNext' == pLenNext + (if left then |a| + |b| else 0)
    ensures qLenNext' == qLenNext + (if left then 0 else |a| + |b|)
  {
    MergingStart(P.Contents, Q.Contents, a, b, restP, restQ, left, kr);
    var subSortedP, subSortedQ, pN, qN;
    ghost var ra, rb, out;
    ghost var R0P, R0Q := P.Repr, Q.Repr;
    subSortedP, subSortedQ, sortedP', sortedQ', pN, qN, ra, rb, out :=
      MergeHeads(P, Q, groupSize, left, pLen, qLen, kr, a, b, restP, restQ,
                 0, 0, sortedP, sortedQ, pLenNext, qLenNext, a, b, []);
    ghost var R1P, R1Q := P.Repr, Q.Repr;
    subSortedP, sortedP', pN, qN, out :=
      DrainP(P, Q, groupSize, left, pLen, kr, a, b, restP, restQ,
             subSortedP, sortedP', pN, qN, ra, rb, out);
    ghost var R2P, R2Q := P.Repr, Q.Repr;
    subSortedQ, sortedQ', pLenNext', qLenNext', out :=
      DrainQ(P, Q, groupSize, left, qLen, kr, a, b, restP, restQ,
             subSortedQ, sortedQ', pN, qN, rb, out);
    assert fresh(P.Repr - R0P) by { assert P.Repr - R0P <= (P.Repr - R2P) + (R2P - R1P) + (R1P - R0P); }
    assert fresh(Q.Repr - R0Q) by { assert Q.Repr - R0Q <= (Q.Repr - R2Q) + (R2Q - R1Q) + (R1Q - R0Q); }
    MergingDone(P.Contents, Q.Contents, a, b, restP, restQ, out, left, kr);
  }

  /** The state of a pass of main: the runs of the previous pass still to
      merge (rest), the runs merged so far (done), and the counters. */
  ghost predicate Pass(pc: seq<string>, qc: seq<string>, runs: seq<seq<string>>,
                       rest: seq<seq<string>>, done: seq<seq<string>>, g: nat, left: bool,
                       nLines: nat, pLen: nat, qLen: nat, sortedP: nat, sortedQ: nat,
                       pLenNext: nat, qLenNext: nat, kr: KeyRange)
  {
    && RunsOk(rest, g, kr)
    && done + MergeRuns(rest, kr) == MergeRuns(runs, kr)
    && pc == Evens(rest) + Evens(done) && qc == Odds(rest) + Odds(done)
    && sortedP + |Evens(rest)| == pLen && sortedQ + |Odds(rest)| == qLen
    && pLenNext == |Evens(done)| && qLenNext == |Odds(done)|
    && pLenNext + qLenNext + |Flatten(rest)| == nLines
    && left == (|done| % 2 == 0)
  }

  lemma {:induction false} FlattenAppend(rs: seq<seq<string>>, m: seq<string>)
    ensures Flatten(rs + [m]) == Flatten(rs) + m
    decreases |rs|
  {
    if rs == [] {
      assert Flatten([m]) == m + Flatten([]);
    } else {
      assert (rs + [m])[1..] == rs[1..] + [m];
      FlattenAppend(rs[1..], m);
    }
  }

  lemma PassStart(pc: seq<string>, qc: seq<string>, runs: seq<seq<string>>, g: nat,
                  nLines: nat, kr: KeyRange)
    requires RunsOk(runs, g, kr) && pc == Evens(runs) && qc == Odds(runs)
    requires |pc| + |qc| == nLines
    ensures Pass(pc, qc, runs, runs, [], g, true, nLines, |pc|, |qc|, 0, 0, 0, 0, kr)
  {
    DealSize(runs);
    assert [] + MergeRuns(runs, kr) == MergeRuns(runs, kr);
    assert Evens(runs) + Evens([]) == pc && Odds(runs) + Odds([]) == qc;
  }

  /** The guard of the pass loop: lines are left to merge exactly when runs
      are. */
  lemma PassTest(pc: seq<string>, qc: seq<string>, runs: seq<seq<string>>,
                 rest: seq<seq<string>>, done: seq<seq<string>>, g: nat, left: bool,
                 nLines: nat, pLen: nat, qLen: nat, sortedP: nat, sortedQ: nat,
                 pLenNext: nat, qLenNext: nat, kr: KeyRange)
    requires Pass(pc, qc, runs, rest, done, g, left, nLines, pLen, qLen, sortedP, sortedQ,
                  pLenNext, qLenNext, kr)
    ensures pLenNext + qLenNext < nLines <==> rest != []
  {
    if rest != [] {
      assert |rest[0]| > 0;
      assert Flatten(rest) == rest[0] + Flatten(rest[1..]);
    }
  }

  /** The next subgroup of a pass: the first run left in P and the first run
      left in Q (empty when P holds the last run). */
  lemma PassSplit(pc: seq<string>, qc: seq<string>, runs: seq<seq<string>>,
                  rest: seq<seq<string>>, done: seq<seq<string>>, g: nat, left: bool,
                  nLines: nat, pLen: nat, qLen: nat, sortedP: nat, sortedQ: nat,
                  pLenNext: nat, qLenNext: nat, kr: KeyRange)
    returns (a: seq<string>, b: seq<string>, rest': seq<seq<string>>)
    requires Pass(pc, qc, runs, rest, done, g, left, nLines, pLen, qLen, sortedP, sortedQ,
                  pLenNext, qLenNext, kr)
    requires rest != []
    ensures Evens(rest) == a + Evens(rest') && Odds(rest) == b + Odds(rest')
    ensures Flatten(rest) == a + b + Flatten(rest')
    ensures MergeRuns(rest, kr) == [Merge(a, b, kr)] + MergeRuns(rest', kr)
    ensures RunsOk(rest', g, kr) && |rest'| < |rest|
    ensures |a| <= g && (|a| == g || sortedP + |a| == pLen) && sortedP + |a| <= pLen
    ensures |b| <= g && (|b| == g || sortedQ + |b| == qLen) && sortedQ + |b| <= qLen
  {
    a := rest[0];
    if |rest| == 1 {
      b, rest' := [], [];
      assert Evens(rest) == a + Odds([]);
      assert Flatten(rest) == a + Flatten([]);
      assert rest == [a];
      assert a + [] == a;
    } else {
      b, rest' := rest[1], rest[2..];
      assert rest[1..][0] == b && rest[1..][1..] == rest';
      assert Odds(rest) == Evens(rest[1..]) == b + Odds(rest');
      assert Evens(rest) == a + Odds(rest[1..]) == a + Evens(rest');
      assert Flatten(rest) == a + Flatten(rest[1..]) == a + (b + Flatten(rest'));
      RunsOkTail(rest, 2, g, kr);
      assert |a| == g;
      if |b| < g {
        assert |rest| == 2;
        assert rest' == [];
      }
    }
  }

  /** A merged subgroup m becomes the next run of done. */
  lemma PassStep(pc: seq<string>, qc: seq<string>, runs: seq<seq<string>>,
                 rest: seq<seq<string>>, done: seq<seq<string>>, g: nat, left: bool,
                 nLines: nat, pLen: nat, qLen: nat, sortedP: nat, sortedQ: nat,
                 pLenNext: nat, qLenNext: nat, kr: KeyRange,
                 a: seq<string>, b: seq<string>, m: seq<string>, rest': seq<seq<string>>,
                 pc': seq<string>, qc': seq<string>)
    requires Pass(pc, qc, runs, rest, done, g, left, nLines, pLen, qLen, sortedP, sortedQ,
                  pLenNext, qLenNext, kr)
    requires Evens(rest) == a + Evens(rest') && Odds(rest) == b + Odds(rest')
    requires Flatten(rest) == a + b + Flatten(rest')
    requires MergeRuns(rest, kr) == [m] + MergeRuns(rest', kr) && |m| == |a| + |b|
    requires RunsOk(rest', g, kr)
    requires pc' == Evens(rest') + Evens(done) + (if left then m else [])
    requires qc' == Odds(rest') + Odds(done) + (if left then [] else m)
    ensures Pass(pc', qc', runs, rest', done + [m], g, !left, nLines, pLen, qLen,
                 sortedP + |a|, sortedQ + |b|,
                 pLenNext + (if left then |m| else 0), qLenNext + (if left then 0 else |m|), kr)
  {
    RunsAssoc(done, [m], MergeRuns(rest', kr));
    DealStep(done, m, left, Evens(rest'), Odds(rest'), pc', qc');
    assert |Evens(rest)| == |a| + |Evens(rest')| && |Odds(rest)| == |b| + |Odds(rest')|;
    assert |Flatten(rest)| == |a| + |b| + |Flatten(rest')|;
  }

  /** Dealing the next run to the output queue that left selects. */
  lemma DealStep(done: seq<seq<string>>, m: seq<string>, left: bool,
                 x: seq<string>, y: seq<string>, pc': seq<string>, qc': seq<string>)
    requires left == (|done| % 2 == 0)
    requires pc' == x + Evens(done) + (if left then m else [])
    requires qc' == y + Odds(done) + (if left then [] else m)
    ensures pc' == x + Evens(done + [m]) && qc' == y + Odds(done + [m])
    ensures |Evens(done + [m])| == |Evens(done)| + (if left then |m| else 0)
    ensures |Odds(done + [m])| == |Odds(done)| + (if left then 0 else |m|)
    ensures !left == (|done + [m]| % 2 == 0)
  {
    DealAppend(done, m);
    if left {
      LinesAssoc(x, Evens(done), m);
      assert y + Odds(done) + [] == y + Odds(done);
    } else {
      LinesAssoc(y, Odds(done), m);
      assert x + Evens(done) + [] == x + Evens(done);
    }
  }

  lemma LinesAssoc(x: seq<string>, y: seq<string>, z: seq<string>)
    ensures x + y + z == x + (y + z)
  {
  }

  lemma RunsAssoc(x: seq<seq<string>>, y: seq<seq<string>>, z: seq<seq<string>>)
    ensures (x + y) + z == x + (y + z)
  {
  }


  /** One subgroup of the pass loop of main: the next run of P is merged with
      the next run of Q into the queue that left selects, and left flips. */
  method MergeSubgroup(P: Queue, Q: Queue, groupSize: nat, left: bool, nLines: nat,
                       pLen: nat, qLen: nat, sortedP: nat, sortedQ: nat,
                       pLenNext: nat, qLenNext: nat, kr: KeyRange,
                       ghost runs: seq<seq<string>>, ghost rest: seq<seq<string>>,
                       ghost done: seq<seq<string>>)
    returns (left': bool, sortedP': nat, sortedQ': nat, pLenNext': nat, qLenNext': nat,
             ghost rest': seq<seq<string>>, ghost done': seq<seq<string>>)
    requires Queues(P, Q) && rest != []
    requires Pass(P.Contents, Q.Contents, runs, rest, done, groupSize, left, nLines,
                  pLen, qLen, sortedP, sortedQ, pLenNext, qLenNext, kr)
    modifies P.Repr, Q.Repr
    ensures Queues(P, Q) && fresh(P.Repr - old(P.Repr)) && fresh(Q.Repr - old(Q.Repr))
    ensures Pass(P.Contents, Q.Contents, runs, rest', done', groupSize, left', nLines,
                 pLen, qLen, sortedP', sortedQ', pLenNext', qLenNext', kr)
    ensures |rest'| < |rest|
  {
    ghost var a, b, r := PassSplit(P.Contents, Q.Contents, runs, rest, done, groupSize, left,
                                   nLines, pLen, qLen, sortedP, sortedQ, pLenNext, qLenNext, kr);
    ghost var pc, qc := P.Contents, Q.Contents;
    LinesAssoc(a, Evens(r), Evens(done));
    LinesAssoc(b, Odds(r), Odds(done));
    sortedP', sortedQ', pLenNext', qLenNext' :=
      MergeGroup(P, Q, groupSize, left, pLen, qLen, sortedP, sortedQ, pLenNext, qLenNext, kr,
                 a, b, Evens(r) + Evens(done), Odds(r) + Odds(done));
    PassStep(pc, qc, runs, rest, done, groupSize, left, nLines, pLen, qLen, sortedP, sortedQ,
             pLenNext, qLenNext, kr, a, b, Merge(a, b, kr), r, P.Contents, Q.Contents);
    left', rest', done' := !left, r, done + [Merge(a, b, kr)];
  }

  /** One pass of main with group size groupSize: every two runs of the
      previous pass become one, dealt alternately to P and Q. */
  method MergePass(P: Queue, Q: Queue, groupSize: nat, pLen: nat, qLen: nat, nLines: nat,
                   kr: KeyRange, ghost runs: seq<seq<string>>)
    returns (pLenNext: nat, qLenNext: nat)
    requires Queues(P, Q) && RunsOk(runs, groupSize, kr)
    requires P.Contents == Evens(runs) && Q.Contents == Odds(runs)
    requires pLen == |P.Contents| && qLen == |Q.Contents| && pLen + qLen == nLines
    modifies P.Repr, Q.Repr
    ensures Queues(P, Q) && fresh(P.Repr - old(P.Repr)) && fresh(Q.Repr - old(Q.Repr))
    ensures P.Contents == Evens(MergeRuns(runs, kr)) && Q.Contents == Odds(MergeRuns(runs, kr))
    ensures pLenNext == |P.Contents| && qLenNext == |Q.Contents| && pLenNext + qLenNext == nLines
  {
    var left := true;
    var sortedP, sortedQ := 0, 0;
    pLenNext, qLenNext := 0, 0;
    ghost var rest, done := runs, [];
    PassStart(P.Contents, Q.Contents, runs, groupSize, nLines, kr);
    PassTest(P.Contents, Q.Contents, runs, rest, done, groupSize, left, nLines,
             pLen, qLen, sortedP, sortedQ, pLenNext, qLenNext, kr);
    while pLenNext + qLenNext < nLines
      invariant Queues(P, Q) && fresh(P.Repr - old(P.Repr)) && fresh(Q.Repr - old(Q.Repr))
      invariant Pass(P.Contents, Q.Contents, runs, rest, done, groupSize, left, nLines,
                     pLen, qLen, sortedP, sortedQ, pLenNext, qLenNext, kr)
      invariant pLenNext + qLenNext < nLines <==> rest != []
      decreases |rest|
    {
      ghost var RP, RQ := P.Repr, Q.Repr;
      left, sortedP, sortedQ, pLenNext, qLenNext, rest, done :=
        MergeSubgroup(P, Q, groupSize, left, nLines, pLen, qLen, sortedP, sortedQ,
                      pLenNext, qLenNext, kr, runs, rest, done);
      assert fresh(P.Repr - old(P.Repr)) by { assert P.Repr - old(P.Repr) <= (P.Repr - RP) + (RP - old(P.Repr)); }
      assert fresh(Q.Repr - old(Q.Repr)) by { assert Q.Repr - old(Q.Repr) <= (Q.Repr - RQ) + (RQ - old(Q.Repr)); }
      PassTest(P.Contents, Q.Contents, runs, rest, done, groupSize, left, nLines,
               pLen, qLen, sortedP, sortedQ, pLenNext, qLenNext, kr);
    }
    PassEnd(P.Contents, Q.Contents, runs, rest, done, groupSize, left, nLines,
            pLen, qLen, sortedP, sortedQ, pLenNext, qLenNext, kr);
  }

  lemma PassEnd(pc: seq<string>, qc: seq<string>, runs: seq<seq<string>>,
                rest: seq<seq<string>>, done: seq<seq<string>>, g: nat, left: bool,
                nLines: nat, pLen: nat, qLen: nat, sortedP: nat, sortedQ: nat,
                pLenNext: nat, qLenNext: nat, kr: KeyRange)
    requires Pass(pc, qc, runs, rest, done, g, left, nLines, pLen, qLen, sortedP, sortedQ,
                  pLenNext, qLenNext, kr)
    requires rest == []
    ensures pc == Evens(MergeRuns(runs, kr)) && qc == Odds(MergeRuns(runs, kr))
    ensures pLenNext == |pc| && qLenNext == |qc| && pLenNext + qLenNext == nLines
  {
    assert done + [] == done;
    assert [] + Evens(done) == Evens(done) && [] + Odds(done) == Odds(done);
  }

  // ------------------------------------------------------------------
  // The last merge: outputLines
  // ------------------------------------------------------------------

  /** The lines written so far, followed by the merge of what is left in
      the queues, make up the whole merge m0. */
  ghost predicate Writing(pc: seq<string>, qc: seq<string>, out: seq<string>,
                          m0: seq<string>, kr: KeyRange)
  {
    out + Merge(pc, qc, kr) == m0
  }

  /** The next line out of a merge of two non-empty queues. */
  lemma MergeFront(pc: seq<string>, qc: seq<string>, kr: KeyRange)
    requires pc != [] && qc != []
    ensures Greater(pc[0], qc[0], kr) ==> Merge(pc, qc, kr) == [qc[0]] + Merge(pc, qc[1..], kr)
    ensures !Greater(pc[0], qc[0], kr) ==> Merge(pc, qc, kr) == [pc[0]] + Merge(pc[1..], qc, kr)
  {
  }

  /** One pass of the first loop of outputLines: the head of Q is written if
      it compares below the head of P, else the head of P. */
  method OutputHead(P: Queue, Q: Queue, kr: KeyRange, out: seq<string>, ghost m0: seq<string>)
    returns (out': seq<string>)
    requires Queues(P, Q) && P.Contents != [] && Q.Contents != []
    requires Writing(P.Contents, Q.Contents, out, m0, kr)
    modifies P.Repr, Q.Repr
    ensures Queues(P, Q) && P.Repr == old(P.Repr) && Q.Repr == old(Q.Repr)
    ensures Writing(P.Contents, Q.Contents, out', m0, kr)
    ensures |P.Contents| + |Q.Contents| + 1 == |old(P.Contents)| + |old(Q.Contents)|
  {
    var okQ, qLine := Q.HeadQ();
    var okP, pLine := P.HeadQ();
    MergeFront(P.Contents, Q.Contents, kr);
    var ok, line;
    if Greater(pLine, qLine, kr) {
      ok, line := Q.RemoveQ();
    } else {
      ok, line := P.RemoveQ();
    }
    out' := out + [line];
    assert out' + Merge(P.Contents, Q.Contents, kr) == out + ([line] + Merge(P.Contents, Q.Contents, kr));
  }

  /** The first loop of outputLines: lines are written while both queues
      are non-empty. */
  method WriteMerged(P: Queue, Q: Queue, kr: KeyRange) returns (out: seq<string>)
    requires Queues(P, Q)
    modifies P.Repr, Q.Repr
    ensures Queues(P, Q) && P.Repr == old(P.Repr) && Q.Repr == old(Q.Repr)
    ensures Writing(P.Contents, Q.Contents, out, Merge(old(P.Contents), old(Q.Contents), kr), kr)
    ensures P.Contents == [] || Q.Contents == []
  {
    ghost var m0 := Merge(P.Contents, Q.Contents, kr);
    out := [];
    assert out + m0 == m0;
    var eq := Q.IsEmptyQ();
    var ep := P.IsEmptyQ();
    while !eq && !ep
      invariant Queues(P, Q) && P.Repr == old(P.Repr) && Q.Repr == old(Q.Repr)
      invariant Writing(P.Contents, Q.Contents, out, m0, kr)
      invariant eq <==> Q.Contents == []
      invariant ep <==> P.Contents == []
      decreases |P.Contents| + |Q.Contents|
    {
      out := OutputHead(P, Q, kr, out, m0);
      eq := Q.IsEmptyQ();
      ep := P.IsEmptyQ();
    }
  }

  /** Once a queue is empty, what is left of the merge is the other queue. */
  lemma WritingRest(pc: seq<string>, qc: seq<string>, out: seq<string>, m0: seq<string>,
                    kr: KeyRange)
    requires Writing(pc, qc, out, m0, kr) && (pc == [] || qc == [])
    ensures m0 == out + pc + qc
  {
    assert Merge(pc, qc, kr) == pc + qc;
  }

  /** outputLines: the last merge of P and Q, written line by line; both
      queues end empty. The lines written are returned, in order. */
  method OutputLines(P: Queue, Q: Queue, kr: KeyRange) returns (out: seq<string>)
    requires Queues(P, Q)
    modifies P.Repr, Q.Repr
    ensures Queues(P, Q) && P.Repr == old(P.Repr) && Q.Repr == old(Q.Repr)
    ensures out == Merge(old(P.Contents), old(Q.Contents), kr)
    ensures P.Contents == [] && Q.Contents == []
  {
    out := WriteMerged(P, Q, kr);
    WritingRest(P.Contents, Q.Contents, out, Merge(old(P.Contents), old(Q.Contents), kr), kr);
    out := WriteAll(P, out);
    out := WriteAll(Q, out);
  }


  /** The second and third loops of outputLines: every line left in X is
      written, in queue order. */
  method WriteAll(X: Queue, out: seq<string>) returns (out': seq<string>)
    requires X.Valid()
    modifies X.Repr
    ensures X.Valid() && X.Repr == old(X.Repr)
    ensures out' == out + old(X.Contents) && X.Contents == []
  {
    out' := out;
    var e := X.IsEmptyQ();
    while !e
      invariant X.Valid() && X.Repr == old(X.Repr)
      invariant out' + X.Contents == out + old(X.Contents)
      invariant e <==> X.Contents == []
      decreases |X.Contents|
    {
      var ok, line := X.RemoveQ();
      assert out' + [line] + X.Contents == out' + ([line] + X.Contents);
      out' := out' + [line];
      e := X.IsEmptyQ();
    }
    assert out' + [] == out';
  }

  // ------------------------------------------------------------------
  // main
  // ------------------------------------------------------------------

  /** The last merge of main: with at most one run in each queue, merging
      them yields all lines sorted, every class of equal keys in its input
      order. */
  lemma LastMerge(runs: seq<seq<string>>, g: nat, lines: seq<string>, kr: KeyRange)
    requires RunsOk(runs, g, kr) && |runs| <= 2 && Stable(Flatten(runs), lines, kr)
    ensures Sorted(Merge(Evens(runs), Odds(runs), kr), kr)
    ensures Stable(Merge(Evens(runs), Odds(runs), kr), lines, kr)
  {
    var a, b := Evens(runs), Odds(runs);
    if |runs| == 2 {
      var r1 := runs[1..];
      assert r1[0] == runs[1] && r1[1..] == [];
      assert a == runs[0] + Odds(r1) && Odds(r1) == Evens([]);
      assert b == Evens(r1) == r1[0] + Odds([]);
      assert Flatten(runs) == runs[0] + Flatten(r1) && Flatten(r1) == r1[0] + Flatten([]);
      assert a == runs[0] + [] && b == runs[1] + [];
      assert Flatten(runs) == runs[0] + (runs[1] + []);
    } else if |runs| == 1 {
      assert runs[1..] == [];
      assert a == runs[0] + Odds([]) && b == Evens([]);
      assert Flatten(runs) == runs[0] + Flatten([]);
      assert a == runs[0] + [] && Flatten(runs) == runs[0] + [];
    }
    assert Sorted(a, kr) && Sorted(b, kr);
    assert Flatten(runs) == a + b;
    MergeSorted(a, b, kr);
    forall k
      ensures Class(Merge(a, b, kr), k, kr) == Class(lines, k, kr)
    {
      MergeStable(a, b, k, kr);
      ClassConcat(a, b, k, kr);
    }
  }

  /** The files named on the command line: argv[firstFile] onwards. */
  function Files(args: seq<string>, firstFile: nat): seq<string>
  {
    if 0 < firstFile <= |args| + 1 then args[firstFile - 1..] else []
  }

  /** The runs formed while reading are sorted runs of two holding every
      class of equal keys in input order. */
  lemma FirstRuns(lines: seq<string>, kr: KeyRange)
    ensures RunsOk(PairRuns(lines, kr), 2, kr)
    ensures Stable(Flatten(PairRuns(lines, kr)), lines, kr)
  {
    PairRunsOk(lines, kr);
    forall k
      ensures Class(Flatten(PairRuns(lines, kr)), k, kr) == Class(lines, k, kr)
    {
      PairRunsStable(lines, k, kr);
    }
  }

  /** A pass keeps the runs well formed at twice the size and every class of
      equal keys in input order. */
  lemma NextRuns(runs: seq<seq<string>>, g: nat, lines: seq<string>, kr: KeyRange)
    requires RunsOk(runs, g, kr) && Stable(Flatten(runs), lines, kr)
    ensures RunsOk(MergeRuns(runs, kr), 2 * g, kr)
    ensures Stable(Flatten(MergeRuns(runs, kr)), lines, kr)
  {
    MergeRunsOk(runs, g, kr);
    forall k
      ensures Class(Flatten(MergeRuns(runs, kr)), k, kr) == Class(lines, k, kr)
    {
      MergeRunsStable(runs, g, k, kr);
    }
  }

  /** The for loop of main over the group sizes 2, 4, 8, ...: passes run
      while twice the group size is below the line count, which leaves at
      most one run in each queue. */
  method MergePasses(P: Queue, Q: Queue, pLen: nat, qLen: nat, kr: KeyRange,
                     ghost lines: seq<string>)
    returns (ghost runs: seq<seq<string>>, ghost groupSize: nat)
    requires Queues(P, Q)
    requires P.Contents == Evens(PairRuns(lines, kr)) && Q.Contents == Odds(PairRuns(lines, kr))
    requires pLen == |P.Contents| && qLen == |Q.Contents|
    modifies P.Repr, Q.Repr
    ensures Queues(P, Q) && fresh(P.Repr - old(P.Repr)) && fresh(Q.Repr - old(Q.Repr))
    ensures RunsOk(runs, groupSize, kr) && |runs| <= 2 && Stable(Flatten(runs), lines, kr)
    ensures P.Contents == Evens(runs) && Q.Contents == Odds(runs)
  {
    runs := PairRuns(lines, kr);
    FirstRuns(lines, kr);
    var pLenNext, qLenNext := pLen, qLen;
    var nLines := pLen + qLen;
    DealSize(runs);
    var g := 2;
    while g * 2 < nLines
      invariant Queues(P, Q) && fresh(P.Repr - old(P.Repr)) && fresh(Q.Repr - old(Q.Repr))
      invariant RunsOk(runs, g, kr) && Stable(Flatten(runs), lines, kr)
      invariant P.Contents == Evens(runs) && Q.Contents == Odds(runs)
      invariant pLenNext == |P.Contents| && qLenNext == |Q.Contents|
      invariant |Flatten(runs)| == nLines && pLenNext + qLenNext == nLines
      decreases nLines - g
    {
      ghost var RP, RQ := P.Repr, Q.Repr;
      pLenNext, qLenNext := MergePass(P, Q, g, pLenNext, qLenNext, nLines, kr, runs);
      assert fresh(P.Repr - old(P.Repr)) by { assert P.Repr - old(P.Repr) <= (P.Repr - RP) + (RP - old(P.Repr)); }
      assert fresh(Q.Repr - old(Q.Repr)) by { assert Q.Repr - old(Q.Repr) <= (Q.Repr - RQ) + (RQ - old(Q.Repr)); }
      NextRuns(runs, g, lines, kr);
      runs := MergeRuns(runs, kr);
      DealSize(runs);
      g := g * 2;
    }
    FewRuns(runs, g, kr);
    groupSize := g;
  }

  /** main, with argv[1..] as args and the readable files as fs (name to
      lines as getLine returns them). Ok carries the lines written to
      stdout; Err the message die writes to stderr before exiting. */
  method Run(args: seq<string>, fs: map<string, seq<string>>)
    returns (r: Result<seq<string>, string>)
    ensures args == [] ==> r == Ok([])
    ensures args != [] && ParseArgs(args[0]).Err? ==> r == Err(INVALID_FLAG)
    ensures args != [] && ParseArgs(args[0]).Ok? ==>
      var a := ParseArgs(args[0]).value;
      var lines := AllLines(Files(args, a.firstFile), fs);
      && (r.Err? <==> !AllExist(Files(args, a.firstFile), fs))
      && (r.Err? ==> r.error == NO_FILE)
      && (r.Ok? ==> && Sorted(r.value, KeyRange(a.pos, a.len))
                    && Stable(r.value, lines, KeyRange(a.pos, a.len))
                    && multiset(r.value) == multiset(lines))
  {
    if args == [] {
      return Ok([]);
    }
    var parsed := ParseArgs(args[0]);
    if parsed.Err? {
      return Err(INVALID_FLAG);
    }
    var kr := KeyRange(parsed.value.pos, parsed.value.len);
    var files := Files(args, parsed.value.firstFile);
    var Q := new Queue();
    var P := new Queue();
    var ok, pLen, qLen := EnqueueFiles(P, Q, files, fs, kr);
    if !ok {
      return Err(NO_FILE);
    }
    ghost var lines := AllLines(files, fs);
    ghost var runs, groupSize := MergePasses(P, Q, pLen, qLen, kr, lines);
    var out := OutputLines(P, Q, kr);
    LastMerge(runs, groupSize, lines, kr);
    StableIsPermutation(out, lines, kr);
    Q.DestroyQ();
    P.DestroyQ();
    r := Ok(out);
  }
}
