/** pancake/pancake.c outside the flips: the character sort behind the
    permutation test, the command-line checks of parseArgs (with the strtol
    conversions they rely on), initTriples, and main's bidirectional
    breadth-first search with its meeting test and path reconstruction. */
module PancakeSearch {
  import opened Common
  import opened PancakeList
  import opened PancakeHashtable
  import opened CircularQueue
  import opened Pancake

  // ---------------------------------------------------------------------
  // sort

  predicate Ascending(s: seq<char>) {
    forall i, j :: 0 <= i < j < |s| ==> s[i] <= s[j]
  }

  /** The first n cells of s are in ascending order. */
  predicate AscendingUpTo(s: seq<char>, n: nat) {
    forall i, j :: 0 <= i < j < n && j < |s| ==> s[i] <= s[j]
  }

  /** sort: copies the first len characters of unsorted into sorted, sorts
      them ascending by insertion (each new element is swapped down while it
      is smaller than its left neighbour) and writes the NUL after them. */
  method Sort(unsorted: string, sorted: array<char>, len: nat)
    requires len <= |unsorted| && len < sorted.Length
    modifies sorted
    ensures Ascending(sorted[..len])
    ensures multiset(sorted[..len]) == multiset(unsorted[..len])
    ensures sorted[len] == '\0'
    ensures sorted[len + 1..] == old(sorted[len + 1..])
  {
    for k := 0 to len
      invariant sorted[..k] == unsorted[..k]
      invariant forall m :: len <= m < sorted.Length ==> sorted[m] == old(sorted[m])
    {
      sorted[k] := unsorted[k];
    }
    ghost var copy := sorted[..];
    var i := 1;
    while i < len
      invariant 1 <= i && AscendingUpTo(sorted[..], i)
      invariant multiset(sorted[..]) == multiset(copy)
      invariant forall m :: len <= m < sorted.Length ==> sorted[m] == copy[m]
    {
      SinkDown(sorted, i);
      i := i + 1;
    }
    assert Ascending(sorted[..len]);
    assert sorted[len..] == copy[len..];
    SamePrefixMultiset(sorted[..], copy, len);
    assert copy[..len] == unsorted[..len];
    sorted[len] := '\0';
  }

  /** The inner loop of sort: the element at i moves left past every larger
      neighbour, so the first i + 1 cells become ascending, the array holds
      the same characters, and nothing after i changes. */
  method SinkDown(sorted: array<char>, i: nat)
    requires i < sorted.Length && AscendingUpTo(sorted[..], i)
    modifies sorted
    ensures AscendingUpTo(sorted[..], i + 1)
    ensures multiset(sorted[..]) == multiset(old(sorted[..]))
    ensures forall m :: i < m < sorted.Length ==> sorted[m] == old(sorted[m])
  {
    var elt := sorted[i];
    var j := i;
    while j > 0 && sorted[j] < sorted[j - 1]
      invariant 0 <= j <= i
      invariant Sinking(sorted[..], i, j, elt)
      invariant multiset(sorted[..]) == multiset(old(sorted[..]))
      invariant forall m :: i < m < sorted.Length ==> sorted[m] == old(sorted[m])
    {
      ghost var before := sorted[..];
      sorted[j] := sorted[j - 1];
      sorted[j - 1] := elt;
      assert sorted[..] == before[j := before[j - 1]][j - 1 := elt];
      SinkingStep(before, i, j, elt);
      j := j - 1;
    }
    SinkingDone(sorted[..], i, j, elt);
  }

  /** The state of the inner loop of sort: the element being moved sits at
      j, the others up to i are ascending, and those after j are larger. */
  ghost predicate Sinking(s: seq<char>, i: nat, j: nat, elt: char)
    requires j <= i < |s|
  {
    && s[j] == elt
    && (forall a, b :: 0 <= a < b <= i && a != j && b != j ==> s[a] <= s[b])
    && (forall b :: j < b <= i ==> elt < s[b])
  }

  /** Moving the element one place left keeps the loop's state and the
      characters. */
  lemma SinkingStep(s: seq<char>, i: nat, j: nat, elt: char)
    requires 0 < j <= i < |s| && Sinking(s, i, j, elt) && s[j] < s[j - 1]
    ensures Sinking(s[j := s[j - 1]][j - 1 := elt], i, j - 1, elt)
    ensures multiset(s[j := s[j - 1]][j - 1 := elt]) == multiset(s)
  {
    var t := s[j := s[j - 1]][j - 1 := elt];
    forall a, b | 0 <= a < b <= i && a != j - 1 && b != j - 1
      ensures t[a] <= t[b]
    {
      if a == j {
        assert t[a] == s[j - 1];
      } else if b == j {
        assert t[b] == s[j - 1] && t[a] == s[a];
      }
    }
  }

  /** The inner loop stops with the first i + 1 cells ascending. */
  lemma SinkingDone(s: seq<char>, i: nat, j: nat, elt: char)
    requires j <= i < |s| && Sinking(s, i, j, elt) && (j == 0 || s[j] >= s[j - 1])
    ensures AscendingUpTo(s, i + 1)
  {
    forall a, b | 0 <= a < b < i + 1 && b < |s|
      ensures s[a] <= s[b]
    {
      if a == j {
        assert elt < s[b];
      } else if b == j && a < j - 1 {
        assert s[a] <= s[j - 1];
      }
    }
  }

  /** Two ascending sequences with the same characters are equal: sorting
      is a canonical form, so comparing sorted copies decides permutation. */
  lemma {:induction false} SortedUnique(a: seq<char>, b: seq<char>)
    requires Ascending(a) && Ascending(b) && multiset(a) == multiset(b)
    ensures a == b
  {
    if a != [] {
      HeadIsLeast(a, a[0]);
      assert b != [];
      HeadIsLeast(b, a[0]);
      HeadIsLeast(a, b[0]);
      SameTails(a, b);
      SortedUnique(a[1..], b[1..]);
      assert a == [a[0]] + a[1..] && b == [b[0]] + b[1..];
    }
  }

  /** The head of an ascending sequence is at most each of its elements. */
  lemma HeadIsLeast(s: seq<char>, x: char)
    requires Ascending(s) && x in multiset(s)
    ensures s != [] && s[0] <= x && Ascending(s[1..]) && s[0] in multiset(s)
  {
    var i :| 0 <= i < |s| && s[i] == x;
  }

  // ---------------------------------------------------------------------
  // strtol(s, &endptr, 10) and the conversion of its long result to int

  const LONG_MIN: int := -0x8000_0000_0000_0000
  const LONG_MAX: int := 0x7fff_ffff_ffff_ffff
  const INT_MIN: int := -0x8000_0000
  const INT_MAX: int := 0x7fff_ffff

  /** The value strtol returns and the index endptr is left at. */
  datatype Conversion = Conversion(value: int, end: nat)

  /** The number of leading isspace characters. */
  function LeadingSpaces(s: string): (n: nat)
    ensures n <= |s|
    ensures forall i :: 0 <= i < n ==> IsSpace(s[i])
    ensures n < |s| ==> !IsSpace(s[n])
  {
    if s != [] && IsSpace(s[0]) then 1 + LeadingSpaces(s[1..]) else 0
  }

  /** The number of leading decimal digits. */
  function LeadingDigits(s: string): (n: nat)
    ensures n <= |s|
    ensures forall i :: 0 <= i < n ==> IsDigit(s[i])
    ensures n < |s| ==> !IsDigit(s[n])
  {
    if s != [] && IsDigit(s[0]) then 1 + LeadingDigits(s[1..]) else 0
  }

  predicate AllDigits(d: string) {
    forall i :: 0 <= i < |d| ==> IsDigit(d[i])
  }

  /** The value of a run of decimal digits, most significant first. */
  function DecimalValue(d: string): nat
    requires AllDigits(d)
  {
    if d == [] then 0 else 10 * DecimalValue(d[..|d| - 1]) + DigitValue(d[|d| - 1])
  }

  /** The decimal numeral of n, without leading zeros ("0" for zero). */
  function Decimal(n: nat): (d: string)
    ensures d != [] && AllDigits(d)
  {
    var c := ('0' as int + n % 10) as char;
    if n < 10 then [c] else Decimal(n / 10) + [c]
  }

  /** Reading a numeral back gives the number. */
  lemma {:induction false} DecimalRoundTrip(n: nat)
    ensures DecimalValue(Decimal(n)) == n
  {
    var d := Decimal(n);
    if n >= 10 {
      DecimalRoundTrip(n / 10);
      assert d[..|d| - 1] == Decimal(n / 10);
    }
  }

  /** Out-of-range results saturate at LONG_MIN and LONG_MAX. */
  function ClampLong(x: int): (r: int)
    ensures LONG_MIN <= r <= LONG_MAX
    ensures LONG_MIN <= x <= LONG_MAX ==> r == x
  {
    if x > LONG_MAX then LONG_MAX else if x < LONG_MIN then LONG_MIN else x
  }

  /** strtol in base 10: leading white space, an optional sign, then the
      longest run of digits. Without digits the result is 0 and endptr is
      the start of the string. */
  function StrToL(s: string): (c: Conversion)
    ensures c.end <= |s|
    ensures LONG_MIN <= c.value <= LONG_MAX
  {
    var i := LeadingSpaces(s);
    var signed := i < |s| && (s[i] == '-' || s[i] == '+');
    var j := if signed then i + 1 else i;
    var n := LeadingDigits(s[j..]);
    if n == 0 then Conversion(0, 0)
    else
      var v: int := DecimalValue(s[j..j + n]);
      Conversion(ClampLong(if signed && s[i] == '-' then -v else v), j + n)
  }

  /** strtol reads a bare numeral completely and returns its value. */
  lemma StrToLDecimal(n: nat)
    requires n <= LONG_MAX
    ensures StrToL(Decimal(n)) == Conversion(n, |Decimal(n)|)
  {
    var d := Decimal(n);
    assert LeadingSpaces(d) == 0 by { assert IsDigit(d[0]); }
    assert d[0..] == d;
    assert LeadingDigits(d) == |d| by { LeadingDigitsAll(d); }
    assert d[0..|d|] == d;
    DecimalRoundTrip(n);
  }

  lemma {:induction false} LeadingDigitsAll(d: string)
    requires AllDigits(d)
    ensures LeadingDigits(d) == |d|
  {
    if d != [] {
      LeadingDigitsAll(d[1..]);
    }
  }

  /** A string with no digit after its white space and sign converts to 0
      with endptr at the start: nothing was read. */
  lemma StrToLNoDigits(s: string)
    requires var i := LeadingSpaces(s);
             var j := if i < |s| && (s[i] == '-' || s[i] == '+') then i + 1 else i;
             j == |s| || !IsDigit(s[j])
    ensures StrToL(s) == Conversion(0, 0)
  {
  }

  /** Assigning a long to an int keeps the value modulo 2^32, as the usual
      two's-complement platforms do. */
  function ToInt(x: int): (r: int)
    ensures INT_MIN <= r <= INT_MAX
    ensures (r - x) % 0x1_0000_0000 == 0
    ensures INT_MIN <= x <= INT_MAX ==> r == x
  {
    (x - INT_MIN) % 0x1_0000_0000 + INT_MIN
  }

  // ---------------------------------------------------------------------
  // parseArgs

  /** The parameters read from the command line. */
  datatype Rule = Rule(height: nat, width: nat, maxlen: nat, initial: string, goal: string)

  /** The reasons parseArgs dies, one per message. */
  datatype ArgError = Usage | InvalidHeight | InvalidWidth | InvalidMaxLength
                    | InitialLength | GoalLength | NotPermutation

  /** Command-line strings never hold a NUL, so strlen is the length. */
  predicate CStrings(args: seq<string>) {
    forall i :: 0 <= i < |args| ==> '\0' !in args[i]
  }

  /** The int that parseArgs stores for argument s. */
  function IntArg(s: string): int {
    ToInt(StrToL(s).value)
  }

  /** An argument is accepted when its stored value lies in [lo, hi] and
      strtol consumed the whole string. */
  predicate InRangeArg(s: string, lo: int, hi: int) {
    lo <= IntArg(s) <= hi && StrToL(s).end == |s|
  }

  /** The five-argument form carries HEIGHT and WIDTH first; the three-argument
      form uses a 3 x 3 board. */
  function Offset(args: seq<string>): nat {
    if |args| == 6 then 2 else 0
  }

  function HeightOf(args: seq<string>): int
    requires |args| == 4 || |args| == 6
  {
    if |args| == 6 then IntArg(args[1]) else 3
  }

  function WidthOf(args: seq<string>): int
    requires |args| == 4 || |args| == 6
  {
    if |args| == 6 then IntArg(args[2]) else 3
  }

  /** The number of cells of a height x width board. */
  function Area(height: nat, width: nat): nat {
    height * width
  }

  function CellsOf(args: seq<string>): nat
    requires |args| == 4 || |args| == 6
    requires DimensionsOk(args)
  {
    Area(HeightOf(args), WidthOf(args))
  }

  predicate DimensionsOk(args: seq<string>)
    requires |args| == 4 || |args| == 6
  {
    |args| == 6 ==> InRangeArg(args[1], MINWH, MAXWH) && InRangeArg(args[2], MINWH, MAXWH)
  }

  predicate MaxLenOk(args: seq<string>)
    requires |args| == 4 || |args| == 6
  {
    InRangeArg(args[Offset(args) + 1], MINLEN, INT_MAX)
  }

  /** Every check of parseArgs passes. */
  predicate ArgsOk(args: seq<string>) {
    && (|args| == 4 || |args| == 6)
    && DimensionsOk(args)
    && MaxLenOk(args)
    && |args[Offset(args) + 2]| == CellsOf(args)
    && |args[Offset(args) + 3]| == CellsOf(args)
    && multiset(args[Offset(args) + 3]) == multiset(args[Offset(args) + 2])
  }

  /** What parseArgs guarantees about an accepted rule. */
  predicate RuleOk(rule: Rule) {
    && MINWH <= rule.height <= MAXWH && MINWH <= rule.width <= MAXWH
    && rule.maxlen >= MINLEN
    && |rule.initial| == Area(rule.height, rule.width)
    && |rule.goal| == Area(rule.height, rule.width)
    && multiset(rule.goal) == multiset(rule.initial)
  }

  /** parseArgs: argv[0] is the program name. The checks run in order and the
      first one that fails decides the error; on success the rule holds the
      parsed numbers and the two strings. */
  method ParseArgs(args: seq<string>) returns (r: Result<Rule, ArgError>)
    requires CStrings(args)
    ensures r.Ok? <==> ArgsOk(args)
    ensures r.Ok? ==> RuleOk(r.value)
    ensures r.Ok? ==> var o := Offset(args);
      r.value == Rule(HeightOf(args), WidthOf(args), IntArg(args[o + 1]), args[o + 2], args[o + 3])
    ensures r == Err(Usage) <==> |args| != 4 && |args| != 6
    ensures r == Err(InvalidHeight) <==> |args| == 6 && !InRangeArg(args[1], MINWH, MAXWH)
    ensures r == Err(InvalidWidth) <==>
      |args| == 6 && InRangeArg(args[1], MINWH, MAXWH) && !InRangeArg(args[2], MINWH, MAXWH)
    ensures r == Err(InvalidMaxLength) <==>
      (|args| == 4 || |args| == 6) && DimensionsOk(args) && !MaxLenOk(args)
    ensures r == Err(InitialLength) <==>
      (|args| == 4 || |args| == 6) && DimensionsOk(args) && MaxLenOk(args)
      && |args[Offset(args) + 2]| != CellsOf(args)
    ensures r == Err(GoalLength) <==>
      (|args| == 4 || |args| == 6) && DimensionsOk(args) && MaxLenOk(args)
      && |args[Offset(args) + 2]| == CellsOf(args)
      && |args[Offset(args) + 3]| != CellsOf(args)
  {
    if |args| != 4 && |args| != 6 {
      return Err(Usage);
    }
    var dims := ParseDimensions(args);
    if dims.Err? {
      return Err(dims.error);
    }
    var (height, width) := dims.value;
    var curArg := Offset(args) + 1;
    var c := StrToL(args[curArg]);
    var maxlen := ToInt(c.value);
    if maxlen < MINLEN || c.end != |args[curArg]| {
      assert !MaxLenOk(args);
      return Err(InvalidMaxLength);
    }
    assert MaxLenOk(args) && maxlen == IntArg(args[curArg]);
    curArg := curArg + 1;
    var initial := args[curArg];
    var n := Area(height, width);
    if |initial| != n {
      return Err(InitialLength);
    }
    curArg := curArg + 1;
    var goal := args[curArg];
    if |goal| != n {
      return Err(GoalLength);
    }
    var same := SamePancakes(initial, goal, n);
    if !same {
      return Err(NotPermutation);
    }
    r := Ok(Rule(height, width, maxlen, initial, goal));
  }

  /** The HEIGHT and WIDTH checks of parseArgs, in that order; the
      three-argument form has no such arguments and yields 3 x 3. */
  method ParseDimensions(args: seq<string>) returns (r: Result<(int, int), ArgError>)
    requires |args| == 4 || |args| == 6
    ensures r.Ok? <==> DimensionsOk(args)
    ensures r.Ok? ==> r.value == (HeightOf(args), WidthOf(args))
    ensures r.Err? ==> r.error == InvalidHeight || r.error == InvalidWidth
    ensures r == Err(InvalidHeight) <==> |args| == 6 && !InRangeArg(args[1], MINWH, MAXWH)
    ensures r == Err(InvalidWidth) <==>
      |args| == 6 && InRangeArg(args[1], MINWH, MAXWH) && !InRangeArg(args[2], MINWH, MAXWH)
  {
    if |args| != 6 {
      return Ok((3, 3));
    }
    var c := StrToL(args[1]);
    var height := ToInt(c.value);
    if height < MINWH || height > MAXWH || c.end != |args[1]| {
      return Err(InvalidHeight);
    }
    c := StrToL(args[2]);
    var width := ToInt(c.value);
    if width < MINWH || width > MAXWH || c.end != |args[2]| {
      return Err(InvalidWidth);
    }
    r := Ok((height, width));
  }

  /** The permutation test of parseArgs: both strings are sorted into
      buffers of n + 1 characters and the sorted copies are compared. */
  method SamePancakes(initial: string, goal: string, n: nat) returns (same: bool)
    requires |initial| == n && |goal| == n
    ensures same <==> multiset(goal) == multiset(initial)
  {
    var goalChars := new char[n + 1];
    var initChars := new char[n + 1];
    Sort(initial, initChars, n);
    Sort(goal, goalChars, n);
    assert initial[..n] == initial && goal[..n] == goal;
    SortedCopiesAgree(initial, goal, initChars[..n], goalChars[..n]);
    same := goalChars[..n] == initChars[..n];
  }

  /** The permutation test: the sorted copies agree exactly when the two
      strings hold the same characters. */
  lemma SortedCopiesAgree(a: string, b: string, sa: seq<char>, sb: seq<char>)
    requires Ascending(sa) && multiset(sa) == multiset(a)
    requires Ascending(sb) && multiset(sb) == multiset(b)
    ensures sa == sb <==> multiset(a) == multiset(b)
  {
    if multiset(a) == multiset(b) {
      SortedUnique(sa, sb);
    }
  }

  // ---------------------------------------------------------------------
  // initTriples

  /** The configuration a side of the search starts from. */
  function Root(rule: Rule, fromGoal: bool): string {
    if fromGoal then rule.goal else rule.initial
  }

  /** A root record: no predecessor, distance 0, the side's own configuration. */
  predicate IsRoot(t: Triple, rule: Rule, fromGoal: bool) {
    t == Triple(Root(rule, fromGoal), None, 0, fromGoal)
  }

  /** initTriples(initial, goal, rule): the two root records. */
  method InitTriples(rule: Rule) returns (initial: Triple, goal: Triple)
    ensures IsRoot(initial, rule, false) && IsRoot(goal, rule, true)
  {
    goal := Triple(rule.goal, None, 0, true);
    initial := Triple(rule.initial, None, 0, false);
  }

  // ---------------------------------------------------------------------
  // The records of the search

  /** One stored record is sound: keyed by its configuration, a permutation
      of INITIAL of the board's size, and either a root of its side or one
      flip after a record of the same side that is one step nearer the root. */
  ghost predicate RecordOk(M: map<string, Triple>, rule: Rule, k: string)
    requires k in M
  {
    var t := M[k];
    && t.config == k
    && |k| == |rule.initial|
    && multiset(k) == multiset(rule.initial)
    && (t.prev.None? ==> t.len == 0 && k == Root(rule, t.fromGoal))
    && (t.prev.Some? ==>
          var p := t.prev.value;
          && p in M && M[p].len + 1 == t.len && M[p].fromGoal == t.fromGoal
          && OneFlip(p, k, rule.width, rule.height))
  }

  /** Every record of the table is sound. */
  ghost predicate Consistent(M: map<string, Triple>, rule: Rule) {
    forall k {:trigger RecordOk(M, rule, k)} :: k in M ==> RecordOk(M, rule, k)
  }

  /** The record main stores for an unseen neighbour next of cur. */
  function Child(cur: Triple, next: string): Triple {
    Triple(next, Some(cur.config), cur.len + 1, cur.fromGoal)
  }

  /** Storing the child of a stored record, for a configuration one flip
      away that is not yet stored, keeps the table sound. */
  lemma ConsistentAdd(M: map<string, Triple>, rule: Rule, cur: Triple, next: string)
    requires Consistent(M, rule)
    requires cur.config in M && M[cur.config] == cur && next !in M
    requires OneFlip(cur.config, next, rule.width, rule.height)
    ensures Consistent(M[next := Child(cur, next)], rule)
  {
    var M' := M[next := Child(cur, next)];
    assert RecordOk(M, rule, cur.config);
    OneFlipPermutes(cur.config, next, rule.width, rule.height);
    forall k | k in M'
      ensures RecordOk(M', rule, k)
    {
      if k != next {
        assert RecordOk(M, rule, k);
      }
    }
  }

  /** Only INITIAL-side records: what happens when INITIAL equals GOAL, as the
      second addH is refused and no GOAL-side root exists. */
  ghost predicate OneSided(M: map<string, Triple>) {
    forall k :: k in M ==> !M[k].fromGoal
  }

  /** Every queued configuration has a record. */
  ghost predicate Queued(qs: seq<string>, M: map<string, Triple>) {
    forall s :: s in qs ==> s in M
  }

  /** The meeting main stops at: the record of cur, the record dict of a
      neighbour of cur found on the other side, and the two distances less
      than maxlen in total. */
  ghost predicate Meeting(M: map<string, Triple>, rule: Rule, cur: Triple, dict: Triple) {
    && cur.config in M && M[cur.config] == cur
    && dict.config in M && M[dict.config] == dict
    && dict.fromGoal != cur.fromGoal
    && dict.len + cur.len < rule.maxlen
    && OneFlip(cur.config, dict.config, rule.width, rule.height)
  }

  // ---------------------------------------------------------------------
  // Termination: the stored keys are permutations of INITIAL, of which
  // there are finitely many.

  /** All strings of length n over the alphabet. */
  ghost function Strings(alphabet: set<char>, n: nat): set<string> {
    if n == 0 then {[]} else set c, t | c in alphabet && t in Strings(alphabet, n - 1) :: [c] + t
  }

  lemma {:induction false} InStrings(alphabet: set<char>, t: string)
    requires forall i :: 0 <= i < |t| ==> t[i] in alphabet
    ensures t in Strings(alphabet, |t|)
  {
    if t != [] {
      InStrings(alphabet, t[1..]);
      assert t == [t[0]] + t[1..];
    }
  }

  /** The characters occurring in s. */
  ghost function Alphabet(s: string): set<char> {
    set c | c in s
  }

  /** The configurations the search can store. */
  ghost function Universe(rule: Rule): set<string> {
    Strings(Alphabet(rule.initial), |rule.initial|)
  }

  lemma InUniverse(rule: Rule, k: string)
    requires |k| == |rule.initial| && multiset(k) == multiset(rule.initial)
    ensures k in Universe(rule)
  {
    forall i | 0 <= i < |k|
      ensures k[i] in Alphabet(rule.initial)
    {
      assert k[i] in multiset(k);
    }
    InStrings(Alphabet(rule.initial), k);
  }

  // ---------------------------------------------------------------------
  // main: the breadth-first search

  /** What main's loop keeps about the queue and the table. */
  ghost predicate SearchState(qs: seq<string>, M: map<string, Triple>, rule: Rule) {
    && Consistent(M, rule)
    && Queued(qs, M)
    && M.Keys <= Universe(rule)
    && (rule.initial == rule.goal ==> OneSided(M))
  }

  /** M extends M0 by children of cur only, each one flip from it. */
  ghost predicate GrownBy(M0: map<string, Triple>, M: map<string, Triple>, cur: Triple, rule: Rule) {
    && (forall k :: k in M0 ==> k in M && M[k] == M0[k])
    && (forall k :: k in M && k !in M0 ==>
          M[k] == Child(cur, k) && OneFlip(cur.config, k, rule.width, rule.height))
  }

  /** Storing and enqueueing an unseen neighbour of a stored record keeps
      the search state. */
  lemma SearchStateAdd(qs: seq<string>, M: map<string, Triple>, rule: Rule, cur: Triple, next: string)
    requires SearchState(qs, M, rule)
    requires cur.config in M && M[cur.config] == cur && next !in M
    requires OneFlip(cur.config, next, rule.width, rule.height)
    ensures SearchState(qs + [next], M[next := Child(cur, next)], rule)
  {
    assert RecordOk(M, rule, cur.config);
    ConsistentAdd(M, rule, cur, next);
    OneFlipPermutes(cur.config, next, rule.width, rule.height);
    InUniverse(rule, next);
  }

  /** The unseen branch of main's inner loop: next is enqueued and stored
      as cur's child, which keeps the search state. */
  method StoreChild(q: Queue, h: Hashtable, rule: Rule, cur: Triple, next: string)
    requires q.Valid() && h.Valid() && q.Repr !! h.Repr
    requires SearchState(q.Contents, h.Contents, rule)
    requires cur.config in h.Contents && h.Contents[cur.config] == cur && next !in h.Contents
    requires OneFlip(cur.config, next, rule.width, rule.height)
    modifies q.Repr, h.Repr
    ensures q.Valid() && h.Valid() && q.Repr !! h.Repr
    ensures fresh(q.Repr - old(q.Repr)) && h.Repr == old(h.Repr)
    ensures SearchState(q.Contents, h.Contents, rule)
    ensures h.Contents == old(h.Contents)[next := Child(cur, next)] && q.Contents == old(q.Contents) + [next]
  {
    SearchStateAdd(q.Contents, h.Contents, rule, cur, next);
    q.AddQ(next);
    var _ := h.AddH(next, Child(cur, next));
  }

  /** The body of the inner loop of main for one neighbour next of cur: an
      unseen neighbour is stored as cur's child and enqueued; a stored one
      ends the search when it lies on the other side and the two distances
      stay below maxlen. */
  method Visit(q: Queue, h: Hashtable, rule: Rule, cur: Triple, next: string) returns (found: bool, dict: Triple)
    requires RuleOk(rule)
    requires q.Valid() && h.Valid() && q.Repr !! h.Repr
    requires SearchState(q.Contents, h.Contents, rule)
    requires cur.config in h.Contents && h.Contents[cur.config] == cur
    requires OneFlip(cur.config, next, rule.width, rule.height)
    modifies q.Repr, h.Repr
    ensures q.Valid() && h.Valid() && q.Repr !! h.Repr
    ensures fresh(q.Repr - old(q.Repr)) && h.Repr == old(h.Repr)
    ensures SearchState(q.Contents, h.Contents, rule)
    ensures next in h.Contents && forall k :: k in old(h.Contents) ==> k in h.Contents
    ensures next !in old(h.Contents) ==>
      !found && h.Contents == old(h.Contents)[next := Child(cur, next)] && q.Contents == old(q.Contents) + [next]
    ensures next in old(h.Contents) ==> h.Contents == old(h.Contents) && q.Contents == old(q.Contents)
    ensures next in old(h.Contents) ==>
      (found <==> h.Contents[next].fromGoal != cur.fromGoal && h.Contents[next].len + cur.len < rule.maxlen)
    ensures found ==> Meeting(h.Contents, rule, cur, dict)
  {
    found, dict := false, cur;
    var d := h.RetrieveH(next);
    if d.None? {
      StoreChild(q, h, rule, cur, next);
    } else if d.value.fromGoal != cur.fromGoal && d.value.len + cur.len < rule.maxlen {
      assert RecordOk(h.Contents, rule, next);
      found, dict := true, d.value;
    }
  }

  /** What an expansion of cur has established after visiting the first i
      neighbours ns[..i]: the search state, the growth by children of cur
      only, the queue untouched while nothing was stored, the meeting when
      one was found, and otherwise every visited neighbour stored. */
  ghost predicate Progress(Q0: seq<string>, M0: map<string, Triple>, Q: seq<string>, M: map<string, Triple>,
                           rule: Rule, cur: Triple, ns: seq<string>, i: nat, found: bool, dict: Triple)
  {
    && i <= |ns|
    && SearchState(Q, M, rule)
    && GrownBy(M0, M, cur, rule)
    && (M.Keys == M0.Keys ==> Q == Q0)
    && (found ==> Meeting(M, rule, cur, dict))
    && (!found ==> forall m :: 0 <= m < i ==> ns[m] in M)
  }

  /** One Visit of the neighbour ns[i] extends the progress to i + 1. */
  lemma ProgressStep(Q0: seq<string>, M0: map<string, Triple>, Qb: seq<string>, Mb: map<string, Triple>,
                     Q: seq<string>, M: map<string, Triple>, rule: Rule, cur: Triple, ns: seq<string>, i: nat,
                     found: bool, dict: Triple, dictb: Triple)
    requires Progress(Q0, M0, Qb, Mb, rule, cur, ns, i, false, dictb) && i < |ns|
    requires OneFlip(cur.config, ns[i], rule.width, rule.height)
    requires SearchState(Q, M, rule)
    requires ns[i] in M && forall k :: k in Mb ==> k in M
    requires ns[i] !in Mb ==> !found && M == Mb[ns[i] := Child(cur, ns[i])] && Q == Qb + [ns[i]]
    requires ns[i] in Mb ==> M == Mb && Q == Qb
    requires found ==> Meeting(M, rule, cur, dict)
    ensures Progress(Q0, M0, Q, M, rule, cur, ns, i + 1, found, dict)
  {
    var next := ns[i];
    if M != Mb {
      assert next in M.Keys && next !in M0.Keys;
    }
    if !found {
      forall m | 0 <= m < i + 1
        ensures ns[m] in M
      {
        if m < i {
          assert ns[m] in Mb;
        }
      }
    }
  }

  /** One expansion of main's loop: the batch of cur's neighbours is walked
      in order through Visit until a meeting is found. Without a meeting,
      every neighbour of cur is stored afterwards. */
  method Expand(q: Queue, h: Hashtable, rule: Rule, cur: Triple) returns (found: bool, dict: Triple)
    requires RuleOk(rule)
    requires q.Valid() && h.Valid() && q.Repr !! h.Repr
    requires SearchState(q.Contents, h.Contents, rule)
    requires cur.config in h.Contents && h.Contents[cur.config] == cur
    modifies q.Repr, h.Repr
    ensures q.Valid() && h.Valid() && q.Repr !! h.Repr
    ensures fresh(q.Repr - old(q.Repr)) && h.Repr == old(h.Repr)
    ensures SearchState(q.Contents, h.Contents, rule)
    ensures GrownBy(old(h.Contents), h.Contents, cur, rule)
    ensures h.Contents.Keys == old(h.Contents.Keys) ==> q.Contents == old(q.Contents)
    ensures found ==> Meeting(h.Contents, rule, cur, dict)
    ensures !found ==> forall b :: OneFlip(cur.config, b, rule.width, rule.height) ==> b in h.Contents
  {
    var w, ht := rule.width, rule.height;
    assert RecordOk(h.Contents, rule, cur.config);
    assert |cur.config| == w * ht;
    var batch := GetBatch(cur.config, w, ht);
    ghost var ns := batch[..];
    var nStep := StepCount(w, ht);
    found, dict := false, cur;
    ghost var M0, Q0 := h.Contents, q.Contents;
    var i := 0;
    while i < nStep && !found
      invariant 0 <= i <= nStep == batch.Length
      invariant batch[..] == ns == Neighbours(cur.config, w, ht)
      invariant batch !in q.Repr && batch !in h.Repr
      invariant q.Valid() && h.Valid() && q.Repr !! h.Repr
      invariant fresh(q.Repr - old(q.Repr)) && h.Repr == old(h.Repr)
      invariant Progress(Q0, M0, q.Contents, h.Contents, rule, cur, ns, i, found, dict)
      decreases nStep - i
    {
      var next := batch[i];
      assert next == ns[i];
      NeighboursAreOneFlip(cur.config, w, ht, next);
      ghost var Mb, Qb, R, dictb := h.Contents, q.Contents, q.Repr, dict;
      found, dict := Visit(q, h, rule, cur, next);
      assert q.Repr - old(q.Repr) <= (q.Repr - R) + (R - old(q.Repr));
      ProgressStep(Q0, M0, Qb, Mb, q.Contents, h.Contents, rule, cur, ns, i, found, dict, dictb);
      i := i + 1;
    }
    if !found {
      NeighboursStored(h.Contents, cur.config, w, ht, ns);
    }
  }

  /** A table holding every member of the batch holds every configuration
      one flip away. */
  lemma NeighboursStored(M: map<string, Triple>, config: string, w: nat, h: nat, ns: seq<string>)
    requires |config| == w * h && ns == Neighbours(config, w, h)
    requires forall m :: 0 <= m < |ns| ==> ns[m] in M
    ensures forall b :: OneFlip(config, b, w, h) ==> b in M
  {
    forall b | OneFlip(config, b, w, h)
      ensures b in M
    {
      NeighboursAreOneFlip(config, w, h, b);
      var m :| 0 <= m < |ns| && ns[m] == b;
    }
  }
}
