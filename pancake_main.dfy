/** The driver of pancake.c: the bidirectional breadth-first search of main
    and the output of the path it found. The search starts from the INITIAL
    and the GOAL configuration at once; each record remembers the
    configuration it was reached from, so a meeting of the two sides is
    turned into a path by walking both chains back to their roots. */
module PancakeMain {
  import opened Common
  import opened PancakeList
  import opened PancakeHashtable
  import opened CircularQueue
  import opened Pancake
  import opened PancakeSearch

  // ---------------------------------------------------------------------
  // The chain of predecessors

  /** The configurations met when following prev links from the record at
      k back to its root, k first. */
  ghost function ChainFrom(M: map<string, Triple>, rule: Rule, k: string): seq<string>
    requires Consistent(M, rule) && k in M
    decreases M[k].len
  {
    assert RecordOk(M, rule, k);
    if M[k].prev.None? then [k] else [k] + ChainFrom(M, rule, M[k].prev.value)
  }

  /** The chain from a stored record: one entry per step to the root, each
      entry stored on the record's side, each linked to the next by prev,
      and the root of that side at the end. */
  lemma {:induction false} ChainFacts(M: map<string, Triple>, rule: Rule, k: string)
    requires Consistent(M, rule) && k in M
    ensures var c := ChainFrom(M, rule, k);
      && |c| == M[k].len + 1 && c[0] == k
      && (forall j :: 0 <= j < |c| ==>
            && c[j] in M && M[c[j]].config == c[j] && M[c[j]].fromGoal == M[k].fromGoal
            && (M[c[j]].prev.None? <==> j == |c| - 1))
      && (forall j :: 0 <= j < |c| - 1 ==> M[c[j]].prev == Some(c[j + 1]))
      && c[|c| - 1] == Root(rule, M[k].fromGoal)
    decreases M[k].len
  {
    assert RecordOk(M, rule, k);
    if M[k].prev.Some? {
      var p := M[k].prev.value;
      ChainFacts(M, rule, p);
      var c, d := ChainFrom(M, rule, k), ChainFrom(M, rule, p);
      assert c == [k] + d;
      assert forall j :: 1 <= j < |c| ==> c[j] == d[j - 1];
    }
  }

  /** Walking a chain, every configuration is one flip after the next one. */
  lemma ChainFlips(M: map<string, Triple>, rule: Rule, k: string)
    requires Consistent(M, rule) && k in M
    ensures var c := ChainFrom(M, rule, k);
      forall j :: 0 <= j < |c| - 1 ==> OneFlip(c[j + 1], c[j], rule.width, rule.height)
  {
    ChainFacts(M, rule, k);
    var c := ChainFrom(M, rule, k);
    forall j | 0 <= j < |c| - 1
      ensures OneFlip(c[j + 1], c[j], rule.width, rule.height)
    {
      assert RecordOk(M, rule, c[j]);
    }
  }

  /** s backwards. */
  function Reverse(s: seq<string>): (r: seq<string>)
    ensures |r| == |s|
    ensures forall i :: 0 <= i < |s| ==> r[i] == s[|s| - 1 - i]
  {
    if s == [] then [] else Reverse(s[1..]) + [s[0]]
  }

  // ---------------------------------------------------------------------
  // The output

  /** What a printed solution is: INITIAL first, GOAL last, each line one
      flip from the one before, and at most maxlen flips. */
  ghost predicate Solution(lines: seq<string>, rule: Rule) {
    && 0 < |lines| <= rule.maxlen + 1
    && lines[0] == rule.initial
    && lines[|lines| - 1] == rule.goal
    && forall i :: 0 <= i < |lines| - 1 ==> OneFlip(lines[i], lines[i + 1], rule.width, rule.height)
  }

  /** The side of a meeting that reaches back to INITIAL, and the side that
      reaches back to GOAL. */
  function InitialSide(cur: Triple, dict: Triple): Triple {
    if cur.fromGoal then dict else cur
  }

  function GoalSide(cur: Triple, dict: Triple): Triple {
    if cur.fromGoal then cur else dict
  }

  /** The lines main prints for a meeting: the chain of the INITIAL side
      backwards, then the chain of the GOAL side. */
  ghost function PathOf(M: map<string, Triple>, rule: Rule, cur: Triple, dict: Triple): seq<string>
    requires Consistent(M, rule) && Meeting(M, rule, cur, dict)
  {
    Reverse(ChainFrom(M, rule, InitialSide(cur, dict).config)) + ChainFrom(M, rule, GoalSide(cur, dict).config)
  }

  /** The path printed for a meeting is a solution, with one flip for each
      step of either side and one for the meeting itself. */
  lemma PathIsSolution(M: map<string, Triple>, rule: Rule, cur: Triple, dict: Triple)
    requires Consistent(M, rule) && Meeting(M, rule, cur, dict)
    ensures Solution(PathOf(M, rule, cur, dict), rule)
    ensures |PathOf(M, rule, cur, dict)| == cur.len + dict.len + 2
  {
    var a, b := InitialSide(cur, dict), GoalSide(cur, dict);
    ChainFacts(M, rule, a.config);
    ChainFacts(M, rule, b.config);
    ChainFlips(M, rule, a.config);
    ChainFlips(M, rule, b.config);
    var ca, cb := ChainFrom(M, rule, a.config), ChainFrom(M, rule, b.config);
    var ra := Reverse(ca);
    var lines := ra + cb;
    assert !a.fromGoal && b.fromGoal;
    if cur.fromGoal {
      OneFlipSymmetric(cur.config, dict.config, rule.width, rule.height);
    }
    assert OneFlip(a.config, b.config, rule.width, rule.height);
    forall i | 0 <= i < |lines| - 1
      ensures OneFlip(lines[i], lines[i + 1], rule.width, rule.height)
    {
      if i < |ra| - 1 {
        assert lines[i] == ca[|ca| - 1 - i] && lines[i + 1] == ca[|ca| - 2 - i];
      } else if i >= |ra| {
        var j := i - |ra|;
        assert lines[i] == cb[j] && lines[i + 1] == cb[j + 1];
        OneFlipSymmetric(cb[j + 1], cb[j], rule.width, rule.height);
      }
    }
  }

  /** The walk of main that stores the chain of the INITIAL side in a
      buffer of len + 1 entries, following prev through the table. */
  method CollectChain(h: Hashtable, rule: Rule, start: Triple) returns (path: array<string>)
    requires h.Valid() && Consistent(h.Contents, rule)
    requires start.config in h.Contents && h.Contents[start.config] == start
    ensures path[..] == ChainFrom(h.Contents, rule, start.config)
  {
    ghost var M := h.Contents;
    ghost var c := ChainFrom(M, rule, start.config);
    ChainFacts(M, rule, start.config);
    path := new string[start.len + 1];
    var t := start;
    var j := 0;
    path[0] := t.config;
    while t.prev.Some?
      invariant h.Valid() && h.Contents == M
      invariant 0 <= j < |c| == path.Length
      invariant t == M[c[j]]
      invariant path[..j + 1] == c[..j + 1]
      decreases |c| - j
    {
      assert j < |c| - 1 && t.prev.value == c[j + 1];
      var r := h.RetrieveH(t.prev.value);
      t := r.value;
      j := j + 1;
      path[j] := t.config;
      assert path[..j + 1] == path[..j] + [path[j]];
    }
    assert path[..] == path[..j + 1];
  }

  /** The output of main after a meeting of cur and dict: the stored chain
      of the INITIAL side printed from its end, then the chain of the GOAL
      side walked through the table. */
  method BuildPath(h: Hashtable, rule: Rule, cur: Triple, dict: Triple) returns (lines: seq<string>)
    requires h.Valid() && Consistent(h.Contents, rule) && Meeting(h.Contents, rule, cur, dict)
    ensures lines == PathOf(h.Contents, rule, cur, dict)
  {
    var first, second := cur, dict;
    if cur.fromGoal {
      first, second := dict, cur;
    }
    var path := CollectChain(h, rule, first);
    lines := ReversedLines(path);
    lines := WalkChain(h, rule, second, lines);
  }

  /** The first printing loop of main: the collected chain from its last
      entry to its first. */
  method ReversedLines(path: array<string>) returns (lines: seq<string>)
    ensures lines == Reverse(path[..])
  {
    lines := [];
    var i := 0;
    while i < path.Length
      invariant 0 <= i <= path.Length
      invariant lines == Reverse(path[path.Length - i..])
    {
      assert path[path.Length - i - 1..][1..] == path[path.Length - i..];
      lines := lines + [path[path.Length - 1 - i]];
      i := i + 1;
    }
    assert path[0..] == path[..];
  }

  /** The second printing loop of main: the chain from start to its root,
      each record found through the table, after the lines already
      printed. */
  method WalkChain(h: Hashtable, rule: Rule, start: Triple, lead: seq<string>) returns (lines: seq<string>)
    requires h.Valid() && Consistent(h.Contents, rule)
    requires start.config in h.Contents && h.Contents[start.config] == start
    ensures lines == lead + ChainFrom(h.Contents, rule, start.config)
  {
    lines := lead;
    ghost var M := h.Contents;
    ghost var c := ChainFrom(M, rule, start.config);
    ChainFacts(M, rule, start.config);
    var t := start;
    var j := 0;
    while t.prev.Some?
      invariant 0 <= j < |c|
      invariant t == M[c[j]]
      invariant lines == lead + c[..j]
      decreases |c| - j
    {
      assert j < |c| - 1 && t.prev.value == c[j + 1];
      lines := lines + [t.config];
      var r := h.RetrieveH(t.prev.value);
      t := r.value;
      assert c[..j + 1] == c[..j] + [c[j]];
      j := j + 1;
    }
    lines := lines + [t.config];
    assert c[..j + 1] == c;
  }

  /** No meeting exists when every record is on the INITIAL side. */
  lemma OneSidedNoMeeting(M: map<string, Triple>, rule: Rule, cur: Triple, dict: Triple)
    requires OneSided(M)
    ensures !Meeting(M, rule, cur, dict)
  {
    if cur.config in M && dict.config in M && M[cur.config] == cur && M[dict.config] == dict {
      assert !cur.fromGoal && !dict.fromGoal;
    }
  }

  /** The two roots form a search state: both are permutations of INITIAL,
      and when INITIAL equals GOAL only the INITIAL root is stored. */
  lemma RootsState(rule: Rule, M: map<string, Triple>, qs: seq<string>, initial: Triple, goal: Triple)
    requires RuleOk(rule)
    requires IsRoot(initial, rule, false) && IsRoot(goal, rule, true)
    requires qs == [initial.config, goal.config]
    requires M == if rule.initial == rule.goal then map[initial.config := initial]
                  else map[initial.config := initial, goal.config := goal]
    ensures SearchState(qs, M, rule)
  {
    InUniverse(rule, rule.initial);
    InUniverse(rule, rule.goal);
    forall k | k in M
      ensures RecordOk(M, rule, k)
    {
    }
  }

  /** The number of permutations of INITIAL that have no record yet. */
  ghost function Unseen(rule: Rule, M: map<string, Triple>): int {
    |Universe(rule)| - |M.Keys|
  }

  /** Storing more permutations of INITIAL leaves fewer unseen, and never
      fewer than none. */
  lemma FewerUnseen(rule: Rule, M: map<string, Triple>, M': map<string, Triple>)
    requires M.Keys <= M'.Keys <= Universe(rule)
    ensures 0 <= Unseen(rule, M') <= Unseen(rule, M)
    ensures M'.Keys != M.Keys ==> Unseen(rule, M') < Unseen(rule, M)
  {
    SubsetSmaller(M.Keys, M'.Keys);
    SubsetSmaller(M'.Keys, Universe(rule));
  }

  /** A subset is no larger than its superset, and a proper one smaller. */
  lemma SubsetSmaller<T>(A: set<T>, B: set<T>)
    requires A <= B
    ensures |A| <= |B|
    ensures A != B ==> |A| < |B|
  {
    assert B == A + (B - A) && A * (B - A) == {};
    if A != B {
      var x :| x in B && x !in A;
      assert x in B - A;
    }
  }

  /** One round of main's loop: the head of the queue is dequeued and its
      record looked up (it always has one, so die("failed") is never
      reached); a record nearer its root than maxlen is expanded. The table
      only grows, and when it does not the queue is shorter. */
  method Round(q: Queue, h: Hashtable, rule: Rule) returns (found: bool, cur: Triple, dict: Triple)
    requires RuleOk(rule)
    requires q.Valid() && h.Valid() && q.Repr !! h.Repr
    requires SearchState(q.Contents, h.Contents, rule) && q.Contents != []
    modifies q.Repr, h.Repr
    ensures q.Valid() && h.Valid() && q.Repr !! h.Repr
    ensures fresh(q.Repr - old(q.Repr)) && h.Repr == old(h.Repr)
    ensures SearchState(q.Contents, h.Contents, rule)
    ensures 0 <= Unseen(rule, h.Contents) <= old(Unseen(rule, h.Contents))
    ensures Unseen(rule, h.Contents) == old(Unseen(rule, h.Contents)) ==> |q.Contents| < old(|q.Contents|)
    ensures found ==> Meeting(h.Contents, rule, cur, dict)
  {
    var _, curConfig := q.RemoveQ();
    assert curConfig in old(q.Contents);
    var t := h.RetrieveH(curConfig);
    if t.None? {
      assert false;
    }
    cur := t.value;
    assert RecordOk(h.Contents, rule, curConfig);
    found, dict := false, cur;
    if cur.len < rule.maxlen {
      ghost var R := q.Repr;
      found, dict := Expand(q, h, rule, cur);
      assert q.Repr - old(q.Repr) <= (q.Repr - R) + (R - old(q.Repr));
    }
    FewerUnseen(rule, old(h.Contents), h.Contents);
  }

  /** The loop of main: rounds until the queue is empty or the two sides
      have met. It ends because every round either stores a new
      permutation of INITIAL, of which there are finitely many, or shortens
      the queue. */
  method Loop(q: Queue, h: Hashtable, rule: Rule) returns (found: bool, cur: Triple, dict: Triple)
    requires RuleOk(rule)
    requires q.Valid() && h.Valid() && q.Repr !! h.Repr
    requires SearchState(q.Contents, h.Contents, rule)
    modifies q.Repr, h.Repr
    ensures h.Valid() && SearchState(q.Contents, h.Contents, rule)
    ensures found ==> Meeting(h.Contents, rule, cur, dict)
  {
    found := false;
    cur := Triple(rule.initial, None, 0, false);
    dict := cur;
    var empty := q.IsEmptyQ();
    while !empty && !found
      invariant q.Valid() && h.Valid() && q.Repr !! h.Repr
      invariant fresh(q.Repr - old(q.Repr))
      invariant h.Repr == old(h.Repr)
      invariant SearchState(q.Contents, h.Contents, rule)
      invariant empty <==> q.Contents == []
      invariant found ==> Meeting(h.Contents, rule, cur, dict)
      decreases Unseen(rule, h.Contents), |q.Contents|
    {
      ghost var R := q.Repr;
      found, cur, dict := Round(q, h, rule);
      assert q.Repr - old(q.Repr) <= (q.Repr - R) + (R - old(q.Repr));
      empty := q.IsEmptyQ();
    }
  }

  /** The start of main: a fresh queue and table, both holding the two
      roots. */
  method Roots(rule: Rule) returns (q: Queue, h: Hashtable)
    requires RuleOk(rule)
    ensures fresh(q.Repr) && fresh(h.Repr)
    ensures q.Valid() && h.Valid() && q.Repr !! h.Repr
    ensures SearchState(q.Contents, h.Contents, rule)
  {
    // main passes its variable goal where initTriples expects INITIAL
    var goal, initial := InitTriples(rule);
    q := new Queue();
    q.AddQ(goal.config);
    q.AddQ(initial.config);
    h := RootTable(goal, initial);
    RootsState(rule, h.Contents, q.Contents, goal, initial);
  }

  /** The table of main's start: a, then b unless b has a's configuration. */
  method RootTable(a: Triple, b: Triple) returns (h: Hashtable)
    ensures fresh(h.Repr) && h.Valid()
    ensures h.Contents == if a.config == b.config then map[a.config := a]
                          else map[a.config := a, b.config := b]
  {
    h := new Hashtable(CHAINS);
    var _ := h.AddH(a.config, a);
    var _ := h.AddH(b.config, b);
  }

  /** main: the breadth-first search from both roots until the queue is
      empty or the two sides meet within maxlen flips, then the output. The
      printed lines are returned; nothing is printed when no meeting was
      found, which is always the case when INITIAL equals GOAL. */
  method Search(rule: Rule) returns (lines: seq<string>)
    requires RuleOk(rule)
    ensures lines != [] ==> Solution(lines, rule)
    ensures rule.initial == rule.goal ==> lines == []
  {
    var q, h := Roots(rule);
    var found, cur, dict := Loop(q, h, rule);
    lines := [];
    if found {
      lines := BuildPath(h, rule, cur, dict);
      PathIsSolution(h.Contents, rule, cur, dict);
    }
    if rule.initial == rule.goal {
      OneSidedNoMeeting(h.Contents, rule, cur, dict);
    }
  }
}
