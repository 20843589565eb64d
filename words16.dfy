/** Words16 (Words16/Words16.c): counts the words of text files in a
    WEPL-balanced tree. Command-line arguments are processed left to right:
    a file name inserts the words of that file, "-d FILE" deletes them, "-set N"
    changes the improvement factor lim for everything after it, and "-dump",
    "-print" and "-epl" report on the tree. A word is a maximal run of
    alphanumeric characters, lowercased. Files are a map from name to lines;
    the program's output is the list of reports it prints. */
module Words16 {
  import opened Common
  import opened WeplTree

  // ---------------------------------------------------------------------------
  // checkArg

  /** The kinds of command-line argument. */
  datatype Arg = DeleteArg | PrintArg | DumpArg | EplArg | SetArg | OtherArg

  /** checkArg: the five flags by exact string comparison, anything else is
      taken for a file name. */
  function CheckArg(a: string): (r: Arg)
    ensures r == DeleteArg <==> a == "-d"
    ensures r == PrintArg <==> a == "-print"
    ensures r == DumpArg <==> a == "-dump"
    ensures r == EplArg <==> a == "-epl"
    ensures r == SetArg <==> a == "-set"
    ensures r == OtherArg <==> a !in {"-d", "-print", "-dump", "-epl", "-set"}
  {
    if a == "-d" then DeleteArg
    else if a == "-print" then PrintArg
    else if a == "-dump" then DumpArg
    else if a == "-epl" then EplArg
    else if a == "-set" then SetArg
    else OtherArg
  }

  // ---------------------------------------------------------------------------
  // Words of a line

  /** s with every character passed through tolower. */
  function LowerStr(s: string): (r: string)
    ensures |r| == |s|
  {
    if s == [] then [] else [ToLower(s[0])] + LowerStr(s[1..])
  }

  /** The word being built, as a list of zero or one words. */
  function Flush(cur: string): seq<string> {
    if cur == [] then [] else [cur]
  }

  /** The words of s, one character at a time: cur is the lowercased part of
      the word under construction; a non-alphanumeric character ends it. */
  function Split(s: string, cur: string): seq<string>
  {
    if s == [] then Flush(cur)
    else if IsAlnum(s[0]) then Split(s[1..], cur + [ToLower(s[0])])
    else Flush(cur) + Split(s[1..], [])
  }

  /** The words splitLine hands on, in order: the maximal alphanumeric runs of
      the line, lowercased. */
  function Words(s: string): seq<string> {
    Split(s, [])
  }

  /** The lowercased alphanumeric characters of s, in order. */
  function LowerAlnums(s: string): string
  {
    if s == [] then [] else (if IsAlnum(s[0]) then [ToLower(s[0])] else []) + LowerAlnums(s[1..])
  }

  /** All words run together. */
  function Concat(ws: seq<string>): string
  {
    if ws == [] then [] else ws[0] + Concat(ws[1..])
  }

  /** A lowercased alphanumeric word, possibly empty. */
  predicate IsWord(w: string) {
    forall i :: 0 <= i < |w| ==> IsAlnum(w[i]) && !IsUpper(w[i])
  }

  lemma {:induction false} SplitWords(s: string, cur: string)
    requires IsWord(cur)
    ensures forall w :: w in Split(s, cur) ==> w != [] && IsWord(w)
    decreases |s|
  {
    if s != [] {
      if IsAlnum(s[0]) {
        var cur' := cur + [ToLower(s[0])];
        assert forall i :: 0 <= i < |cur| ==> cur'[i] == cur[i];
        SplitWords(s[1..], cur');
      } else {
        SplitWords(s[1..], []);
      }
    }
  }

  /** Every word is nonempty and made of digits and lower-case letters. */
  lemma WordsAreWords(s: string)
    ensures forall w :: w in Words(s) ==> w != [] && IsWord(w)
  {
    SplitWords(s, []);
  }

  lemma {:induction false} ConcatAppend(a: seq<string>, b: seq<string>)
    ensures Concat(a + b) == Concat(a) + Concat(b)
  {
    if a == [] {
      assert a + b == b;
    } else {
      assert (a + b)[1..] == a[1..] + b;
      ConcatAppend(a[1..], b);
    }
  }

  lemma {:induction false} SplitCover(s: string, cur: string)
    ensures Concat(Split(s, cur)) == cur + LowerAlnums(s)
    decreases |s|
  {
    if s == [] {
      assert Concat(Flush(cur)) == cur;
    } else if IsAlnum(s[0]) {
      SplitCover(s[1..], cur + [ToLower(s[0])]);
    } else {
      SplitCover(s[1..], []);
      ConcatAppend(Flush(cur), Split(s[1..], []));
      assert Concat(Flush(cur)) == cur;
    }
  }

  /** Run together, the words are exactly the alphanumeric characters of the
      line, lowercased, in order: nothing is lost, nothing added. */
  lemma WordsCoverLine(s: string)
    ensures Concat(Words(s)) == LowerAlnums(s)
  {
    SplitCover(s, []);
  }

  lemma {:induction false} SplitSeparate(a: string, cur: string, c: char, b: string)
    requires !IsAlnum(c)
    ensures Split(a + [c] + b, cur) == Split(a, cur) + Split(b, [])
    decreases |a|
  {
    var s := a + [c] + b;
    if a == [] {
      assert s[0] == c && s[1..] == b;
    } else {
      assert s[0] == a[0] && s[1..] == a[1..] + [c] + b;
      if IsAlnum(a[0]) {
        SplitSeparate(a[1..], cur + [ToLower(a[0])], c, b);
      } else {
        SplitSeparate(a[1..], [], c, b);
      }
    }
  }

  /** A non-alphanumeric character separates: no word spans it. */
  lemma WordsSeparate(a: string, c: char, b: string)
    requires !IsAlnum(c)
    ensures Words(a + [c] + b) == Words(a) + Words(b)
  {
    SplitSeparate(a, [], c, b);
  }

  /** From index i the alphanumeric run up to index e is read into the word
      under construction. */
  lemma {:induction false} SplitRun(line: string, i: nat, e: nat, cur: string)
    requires i <= e <= |line|
    requires forall j :: i <= j < e ==> IsAlnum(line[j])
    ensures Split(line[i..], cur) == Split(line[e..], cur + LowerStr(line[i..e]))
    decreases e - i
  {
    if i == e {
      assert cur + LowerStr(line[i..e]) == cur;
    } else {
      assert line[i..][0] == line[i] && line[i..][1..] == line[i + 1..];
      assert line[i..e][1..] == line[i + 1..e];
      SplitRun(line, i + 1, e, cur + [ToLower(line[i])]);
      assert cur + [ToLower(line[i])] + LowerStr(line[i + 1..e]) == cur + LowerStr(line[i..e]);
    }
  }

  /** A run of alphanumeric characters alone is one word. */
  lemma WordsOfRun(w: string)
    requires w != [] && forall i :: 0 <= i < |w| ==> IsAlnum(w[i])
    ensures Words(w) == [LowerStr(w)]
  {
    SplitRun(w, 0, |w|, []);
    assert w[0..] == w && w[0..|w|] == w && w[|w|..] == [];
    assert [] + LowerStr(w) == LowerStr(w);
  }

  /** A line without alphanumeric characters has no words. */
  lemma {:induction false} NoWords(s: string)
    requires forall i :: 0 <= i < |s| ==> !IsAlnum(s[i])
    ensures Words(s) == []
    decreases |s|
  {
    if s != [] {
      NoWords(s[1..]);
    }
  }

  // ---------------------------------------------------------------------------
  // Inserting and deleting words

  /** The tree after each word of ws in turn went to increment (insert) or to
      delete. */
  function Apply(t: Tree, ws: seq<string>, lim: int, insert: bool): (r: Tree)
    requires WellFormed(t)
    ensures WellFormed(r)
    decreases |ws|
  {
    if ws == [] then t
    else Apply(if insert then Increment(t, ws[0], lim) else Delete(t, ws[0], lim), ws[1..], lim, insert)
  }

  lemma {:induction false} ApplyAppend(t: Tree, a: seq<string>, b: seq<string>, lim: int, insert: bool)
    requires WellFormed(t)
    ensures Apply(t, a + b, lim, insert) == Apply(Apply(t, a, lim, insert), b, lim, insert)
    decreases |a|
  {
    if a == [] {
      assert a + b == b;
    } else {
      assert (a + b)[0] == a[0] && (a + b)[1..] == a[1..] + b;
      ApplyAppend(if insert then Increment(t, a[0], lim) else Delete(t, a[0], lim), a[1..], b, lim, insert);
    }
  }

  /** The first word and the rest: occurrences and membership of x. */
  lemma ConsAt(ws: seq<string>, x: string)
    requires ws != []
    ensures multiset(ws)[x] == multiset(ws[1..])[x] + (if x == ws[0] then 1 else 0)
    ensures x in ws <==> x == ws[0] || x in ws[1..]
  {
    assert ws == [ws[0]] + ws[1..];
    assert multiset(ws) == multiset{ws[0]} + multiset(ws[1..]);
  }

  /** Inserting words keeps the tree valid and raises each key's count by its
      number of occurrences in ws; the keys gained are the words. */
  lemma {:induction false} InsertCounts(t: Tree, ws: seq<string>, lim: int)
    requires Valid(t)
    ensures Valid(Apply(t, ws, lim, true))
    ensures forall x :: x in Keys(Apply(t, ws, lim, true)) <==> x in Keys(t) || x in ws
    ensures forall x :: CountIn(Pairs(Apply(t, ws, lim, true)), x) == CountIn(Pairs(t), x) + multiset(ws)[x]
    decreases |ws|
  {
    if ws != [] {
      var t' := Increment(t, ws[0], lim);
      IncrementCounts(t, ws[0], lim);
      InsertCounts(t', ws[1..], lim);
      var r := Apply(t', ws[1..], lim, true);
      assert Apply(t, ws, lim, true) == r;
      forall x
        ensures x in Keys(r) <==> x in Keys(t) || x in ws
        ensures CountIn(Pairs(r), x) == CountIn(Pairs(t), x) + multiset(ws)[x]
      {
        ConsAt(ws, x);
      }
    }
  }

  /** Deleting words keeps the tree valid, drops every word's leaf and leaves
      every other count alone. */
  lemma {:induction false} DeleteWords(t: Tree, ws: seq<string>, lim: int)
    requires Valid(t)
    ensures Valid(Apply(t, ws, lim, false))
    ensures forall x :: x in Keys(Apply(t, ws, lim, false)) <==> x in Keys(t) && x !in ws
    ensures forall x :: CountIn(Pairs(Apply(t, ws, lim, false)), x) == if x in ws then 0 else CountIn(Pairs(t), x)
    decreases |ws|
  {
    if ws != [] {
      var t' := Delete(t, ws[0], lim);
      DeleteCounts(t, ws[0], lim);
      DeleteWords(t', ws[1..], lim);
      var r := Apply(t', ws[1..], lim, false);
      assert Apply(t, ws, lim, false) == r;
      forall x
        ensures x in Keys(r) <==> x in Keys(t) && x !in ws
        ensures CountIn(Pairs(r), x) == if x in ws then 0 else CountIn(Pairs(t), x)
      {
        ConsAt(ws, x);
      }
    }
  }

  /** Apply unfolded once at a first word w. */
  lemma ApplyCons(t: Tree, w: string, rest: seq<string>, lim: int, insert: bool)
    requires WellFormed(t)
    ensures Apply(t, [w] + rest, lim, insert)
         == Apply(if insert then Increment(t, w, lim) else Delete(t, w, lim), rest, lim, insert)
  {
    assert ([w] + rest)[0] == w && ([w] + rest)[1..] == rest;
  }

  /** The words from index start on, when the alphanumeric run there ends at
      index i. */
  lemma WordsFrom(line: string, start: nat, i: nat)
    requires start <= i <= |line|
    requires forall j :: start <= j < i ==> IsAlnum(line[j])
    requires i < |line| ==> !IsAlnum(line[i])
    ensures Words(line[start..]) == (if i > start then [LowerStr(line[start..i])] else [])
                                    + (if i == |line| then [] else Words(line[i + 1..]))
  {
    var w := LowerStr(line[start..i]);
    SplitRun(line, start, i, []);
    assert [] + w == w;
    if i < |line| {
      assert line[i..][0] == line[i] && line[i..][1..] == line[i + 1..];
    } else {
      assert line[i..] == [];
    }
  }

  /** splitLine: scans the line with a moving index, copies each alphanumeric
      run lowercased into a fresh word and inserts or deletes it at once. */
  method SplitLine(t: Tree, line: string, lim: int, insert: bool) returns (r: Tree)
    requires WellFormed(t)
    ensures r == Apply(t, Words(line), lim, insert)
  {
    ghost var target := Apply(t, Words(line), lim, insert);
    assert line[0..] == line;
    r := t;
    var i := 0;
    while i < |line|
      invariant 0 <= i <= |line| && WellFormed(r)
      invariant Apply(r, Words(line[i..]), lim, insert) == target
      decreases |line| - i
    {
      var end;
      r, end := SplitStep(r, line, i, lim, insert);
      if end == |line| {
        assert Apply(r, [], lim, insert) == r;
        break;
      }
      i := end + 1;
    }
    assert i == |line| ==> Words(line[i..]) == [];
  }

  /** One round of splitLine from index i: the run there (possibly empty) ends
      at index end; a nonempty run is lowercased and goes to the tree. */
  method SplitStep(r: Tree, line: string, i: nat, lim: int, insert: bool) returns (r': Tree, end: nat)
    requires i < |line| && WellFormed(r)
    ensures i <= end <= |line| && WellFormed(r')
    ensures Apply(r, Words(line[i..]), lim, insert)
         == Apply(r', if end == |line| then [] else Words(line[end + 1..]), lim, insert)
  {
    end := ScanRun(line, i);
    WordsFrom(line, i, end);
    ghost var rest: seq<string> := if end == |line| then [] else Words(line[end + 1..]);
    if end > i {
      var word := LowerWord(line, i, end);
      ApplyCons(r, word, rest, lim, insert);
      r' := if insert then Increment(r, word, lim) else Delete(r, word, lim);
    } else {
      assert Words(line[i..]) == rest;
      r' := r;
    }
  }

  /** The scan of splitLine over one alphanumeric run: the index of the first
      character from start on that is not alphanumeric, or the end. */
  method ScanRun(line: string, start: nat) returns (i: nat)
    requires start <= |line|
    ensures start <= i <= |line|
    ensures forall j :: start <= j < i ==> IsAlnum(line[j])
    ensures i < |line| ==> !IsAlnum(line[i])
  {
    i := start;
    while i < |line| && IsAlnum(line[i])
      invariant start <= i <= |line|
      invariant forall j :: start <= j < i ==> IsAlnum(line[j])
    {
      i := i + 1;
    }
  }

  /** The copy loop of splitLine: line[start..end) through tolower. */
  method LowerWord(line: string, start: nat, end: nat) returns (word: string)
    requires start <= end <= |line|
    ensures word == LowerStr(line[start..end])
  {
    word := [];
    var k := start;
    while k < end
      invariant start <= k <= end
      invariant word == LowerStr(line[start..k])
    {
      LowerStrSnoc(line[start..k], line[k]);
      assert line[start..k] + [line[k]] == line[start..k + 1];
      word := word + [ToLower(line[k])];
      k := k + 1;
    }
  }

  lemma {:induction false} LowerStrSnoc(s: string, c: char)
    ensures LowerStr(s + [c]) == LowerStr(s) + [ToLower(c)]
  {
    if s == [] {
      assert s + [c] == [c];
    } else {
      assert (s + [c])[1..] == s[1..] + [c];
      LowerStrSnoc(s[1..], c);
    }
  }

  // ---------------------------------------------------------------------------
  // Files

  /** The words of all lines of a file, in order. A word never spans two
      lines. */
  function FileWords(lines: seq<string>): seq<string>
  {
    if lines == [] then [] else Words(lines[0]) + FileWords(lines[1..])
  }

  const CANNOT_OPEN := "Words16: cannot open "

  /** insertRemoveFile: every line of the file goes through splitLine; a file
      that cannot be opened stops the program with a message. */
  method InsertRemoveFile(t: Tree, file: string, fs: map<string, seq<string>>, lim: int, insert: bool)
    returns (r: Result<Tree, string>)
    requires WellFormed(t)
    ensures file !in fs ==> r == Err(CANNOT_OPEN + file)
    ensures file in fs ==> r == Ok(Apply(t, FileWords(fs[file]), lim, insert))
  {
    if file !in fs {
      return Err(CANNOT_OPEN + file);
    }
    var lines := fs[file];
    var u := t;
    var i := 0;
    while i < |lines|
      invariant 0 <= i <= |lines| && WellFormed(u)
      invariant Apply(u, FileWords(lines[i..]), lim, insert) == Apply(t, FileWords(lines), lim, insert)
    {
      assert lines[i..][1..] == lines[i + 1..];
      ApplyAppend(u, Words(lines[i]), FileWords(lines[i + 1..]), lim, insert);
      u := SplitLine(u, lines[i], lim, insert);
      i := i + 1;
    }
    return Ok(u);
  }

  // ---------------------------------------------------------------------------
  // The argument loop of main

  /** What -dump, -print and -epl print. */
  datatype Report =
    | DumpKeys(keys: seq<string>)
    | PairsReport(pairs: seq<(string, int)>)
    | EplReport(wt: int, wepl: int)

  /** The tree and the reports when the argument loop stops, and the message of
      the file that could not be opened, if one stopped it. */
  datatype Outcome = Outcome(tree: Tree, reports: seq<Report>, error: Option<string>)

  /** The argument loop from argument args[0] on, with improvement factor lim,
      tree t and the reports printed so far. strtol gives the number that
      "-set N" reads from N. "-d" and "-set" as the last argument name a file
      to insert. */
  function Exec(args: seq<string>, lim: int, t: Tree, out: seq<Report>,
                fs: map<string, seq<string>>, strtol: string -> int): Outcome
    requires WellFormed(t)
    decreases |args|
  {
    if args == [] then Outcome(t, out, None)
    else
      var a := CheckArg(args[0]);
      if a == DumpArg then Exec(args[1..], lim, t, out + [DumpKeys(Dump(t))], fs, strtol)
      else if a == PrintArg then Exec(args[1..], lim, t, out + [PairsReport(Pairs(t))], fs, strtol)
      else if a == EplArg then
        var (w, e) := PrintEpl(t);
        Exec(args[1..], lim, t, out + [EplReport(w, e)], fs, strtol)
      else if a == SetArg && |args| > 1 then Exec(args[2..], strtol(args[1]), t, out, fs, strtol)
      else if a == DeleteArg && |args| > 1 then
        if args[1] !in fs then Outcome(t, out, Some(CANNOT_OPEN + args[1]))
        else Exec(args[2..], lim, Apply(t, FileWords(fs[args[1]]), lim, false), out, fs, strtol)
      else if args[0] !in fs then Outcome(t, out, Some(CANNOT_OPEN + args[0]))
      else Exec(args[1..], lim, Apply(t, FileWords(fs[args[0]]), lim, true), out, fs, strtol)
  }

  /** main: the tree starts empty with lim = 0; each argument is dispatched by
      checkArg, "-d" and "-set" consuming the argument after them. */
  method Run(args: seq<string>, fs: map<string, seq<string>>, strtol: string -> int)
    returns (o: Outcome)
    ensures o == Exec(args, 0, Create(), [], fs, strtol)
  {
    var t := Create();
    var lim := 0;
    var out: seq<Report> := [];
    var i := 0;
    while i < |args|
      invariant 0 <= i <= |args| && WellFormed(t)
      invariant Exec(args[i..], lim, t, out, fs, strtol) == Exec(args, 0, Create(), [], fs, strtol)
    {
      assert args[i..][1..] == args[i + 1..];
      var arg := CheckArg(args[i]);
      if arg == DumpArg {
        out := out + [DumpKeys(Dump(t))];
      } else if arg == PrintArg {
        out := out + [PairsReport(Pairs(t))];
      } else if arg == EplArg {
        var (w, e) := PrintEpl(t);
        out := out + [EplReport(w, e)];
      } else if arg == SetArg && i + 1 < |args| {
        assert args[i..][2..] == args[i + 2..];
        i := i + 1;
        lim := strtol(args[i]);
      } else if arg == DeleteArg && i + 1 < |args| {
        assert args[i..][2..] == args[i + 2..];
        i := i + 1;
        var r := InsertRemoveFile(t, args[i], fs, lim, false);
        if r.Err? {
          return Outcome(t, out, Some(r.error));
        }
        t := r.value;
      } else {
        var r := InsertRemoveFile(t, args[i], fs, lim, true);
        if r.Err? {
          return Outcome(t, out, Some(r.error));
        }
        t := r.value;
      }
      i := i + 1;
    }
    o := Outcome(t, out, None);
  }

  // ---------------------------------------------------------------------------
  // What a run establishes

  /** Every -print report lists distinct keys in ascending strcmp order, each
      with a count of at least 1; every -dump report of a nonempty tree has
      one line per node. */
  ghost predicate SoundReport(rep: Report) {
    match rep
    case PairsReport(ps) => Ascending(ps) && forall i :: 0 <= i < |ps| ==> ps[i].1 >= 1
    case DumpKeys(ks) => |ks| == 0 || |ks| % 2 == 1
    case EplReport(w, e) => w >= 0 && e >= 0
  }

  ghost predicate AllSound(rs: seq<Report>) {
    forall i :: 0 <= i < |rs| ==> SoundReport(rs[i])
  }

  lemma {:induction false} PositivePairs(t: Tree)
    requires Positive(t)
    ensures forall i :: 0 <= i < |Pairs(t)| ==> Pairs(t)[i].1 >= 1
  {
    if t.Node? {
      PositivePairs(t.left);
      PositivePairs(t.right);
    }
  }

  lemma {:induction false} NonNegative(t: Tree)
    requires Annotated(t) && Positive(t)
    ensures Wt(t) >= 0 && Wepl(t) >= 0
  {
    if t.Node? {
      NonNegative(t.left);
      NonNegative(t.right);
    }
  }

  /** Whatever the arguments, the tree stays valid and every report printed
      is sound. */
  lemma {:induction false} ExecSound(args: seq<string>, lim: int, t: Tree, out: seq<Report>,
                                      fs: map<string, seq<string>>, strtol: string -> int)
    requires Valid(t) && AllSound(out)
    ensures Valid(Exec(args, lim, t, out, fs, strtol).tree)
    ensures AllSound(Exec(args, lim, t, out, fs, strtol).reports)
    decreases |args|
  {
    if args != [] {
      var a := CheckArg(args[0]);
      if a == DumpArg || a == PrintArg || a == EplArg {
        var rep := if a == DumpArg then DumpKeys(Dump(t))
                   else if a == PrintArg then PairsReport(Pairs(t))
                   else EplReport(Wt(t), Wepl(t));
        ReportSound(t, rep);
        var out' := out + [rep];
        assert AllSound(out') by {
          assert forall i :: 0 <= i < |out| ==> out'[i] == out[i];
        }
        assert Exec(args, lim, t, out, fs, strtol) == Exec(args[1..], lim, t, out', fs, strtol);
        ExecSound(args[1..], lim, t, out', fs, strtol);
      } else if a == SetArg && |args| > 1 {
        assert Exec(args, lim, t, out, fs, strtol) == Exec(args[2..], strtol(args[1]), t, out, fs, strtol);
        ExecSound(args[2..], strtol(args[1]), t, out, fs, strtol);
      } else if a == DeleteArg && |args| > 1 {
        if args[1] in fs {
          var u := Apply(t, FileWords(fs[args[1]]), lim, false);
          DeleteWords(t, FileWords(fs[args[1]]), lim);
          assert Exec(args, lim, t, out, fs, strtol) == Exec(args[2..], lim, u, out, fs, strtol);
          ExecSound(args[2..], lim, u, out, fs, strtol);
        } else {
          assert Exec(args, lim, t, out, fs, strtol) == Outcome(t, out, Some(CANNOT_OPEN + args[1]));
        }
      } else if args[0] in fs {
        var u := Apply(t, FileWords(fs[args[0]]), lim, true);
        InsertCounts(t, FileWords(fs[args[0]]), lim);
        assert Exec(args, lim, t, out, fs, strtol) == Exec(args[1..], lim, u, out, fs, strtol);
        ExecSound(args[1..], lim, u, out, fs, strtol);
      } else {
        assert Exec(args, lim, t, out, fs, strtol) == Outcome(t, out, Some(CANNOT_OPEN + args[0]));
      }
    }
  }

  /** What a valid tree reports is sound. */
  lemma ReportSound(t: Tree, rep: Report)
    requires Valid(t)
    requires rep == DumpKeys(Dump(t)) || rep == PairsReport(Pairs(t)) || rep == EplReport(Wt(t), Wepl(t))
    ensures SoundReport(rep)
  {
    if t != Nil {
      DumpShape(t);
    }
    PrintPairsAscending(t);
    PositivePairs(t);
    NonNegative(t);
  }

  /** The words of the files args names, in order. */
  function AllWords(args: seq<string>, fs: map<string, seq<string>>): seq<string>
    requires forall i :: 0 <= i < |args| ==> args[i] in fs
  {
    if args == [] then [] else FileWords(fs[args[0]]) + AllWords(args[1..], fs)
  }

  /** With file names only, the run counts words: each word's count is its
      number of occurrences in all the files together, whatever lim is, and
      nothing is printed. */
  lemma {:induction false} ExecCountsWords(args: seq<string>, lim: int, t: Tree,
                                            fs: map<string, seq<string>>, strtol: string -> int)
    requires Valid(t)
    requires forall i :: 0 <= i < |args| ==> args[i] in fs && CheckArg(args[i]) == OtherArg
    ensures var o := Exec(args, lim, t, [], fs, strtol);
      o.error == None && o.reports == [] &&
      forall x :: CountIn(Pairs(o.tree), x) == CountIn(Pairs(t), x) + multiset(AllWords(args, fs))[x]
    decreases |args|
  {
    if args != [] {
      var ws := FileWords(fs[args[0]]);
      InsertCounts(t, ws, lim);
      ExecCountsWords(args[1..], lim, Apply(t, ws, lim, true), fs, strtol);
    }
  }

  /** "-d FILE" removes every word of the file: the tree handed on holds none
      of them, and all other counts are as they were. */
  lemma DeleteFileWords(file: string, rest: seq<string>, lim: int, t: Tree,
                        fs: map<string, seq<string>>, strtol: string -> int)
    requires Valid(t) && file in fs
    ensures var u := Apply(t, FileWords(fs[file]), lim, false);
      Exec(["-d", file] + rest, lim, t, [], fs, strtol) == Exec(rest, lim, u, [], fs, strtol) &&
      forall x :: x in FileWords(fs[file]) ==> x !in Keys(u)
  {
    var args := ["-d", file] + rest;
    assert args[0] == "-d" && args[1] == file && args[2..] == rest;
    DeleteWords(t, FileWords(fs[file]), lim);
  }

  /** "-set N" governs everything after it: the rest runs with lim = strtol(N). */
  lemma SetGovernsRest(n: string, rest: seq<string>, lim: int, t: Tree, out: seq<Report>,
                       fs: map<string, seq<string>>, strtol: string -> int)
    requires WellFormed(t)
    ensures Exec(["-set", n] + rest, lim, t, out, fs, strtol) == Exec(rest, strtol(n), t, out, fs, strtol)
  {
    var args := ["-set", n] + rest;
    assert args[0] == "-set" && args[2..] == rest;
  }

  /** "-d" or "-set" as the last argument is a file name to insert. */
  lemma LastFlagIsFile(a: string, lim: int, t: Tree, fs: map<string, seq<string>>, strtol: string -> int)
    requires WellFormed(t) && (a == "-d" || a == "-set") && a in fs
    ensures Exec([a], lim, t, [], fs, strtol) == Outcome(Apply(t, FileWords(fs[a]), lim, true), [], None)
  {
    assert [a][1..] == [];
  }
}
