/** Boggle/Boggle.c: a dictionary read from the input is stored in a trie of
    lower-case words; every path on an nr x nc board of letters and blanks
    ('_' matches any letter) that moves between the eight neighbouring cells
    adds one to the count of the word it spells; with -t no cell is used
    twice on a path. The words found are reported with their counts, or,
    with -c, the words that were never found. */
module Boggle {
  import opened Common

  const NAlpha := 26
  const Directions := 8

  // ---------------------------------------------------------------------
  // The trie

  /** A trie node: term marks the end of a word, word is the word stored
      there and next holds one child per letter. The count field of a node
      is kept apart, keyed by the node's path (see Counts below): it is the
      only field walkTrie changes, and the shape of the trie stays fixed
      while the board is walked. */
  datatype Trie = Node(term: bool, word: string, next: seq<Option<Trie>>)

  /** Every node has one slot per letter. */
  predicate Valid(t: Trie)
    decreases t
  {
    |t.next| == NAlpha && forall j :: 0 <= j < NAlpha && t.next[j].Some? ==> Valid(t.next[j].value)
  }

  /** The slot of a lower-case letter: c - 'a'. */
  function Index(c: char): int {
    c as int - 'a' as int
  }

  /** The letter of slot j. */
  function Letter(j: int): (c: char)
    requires 0 <= j < NAlpha
    ensures IsLower(c) && Index(c) == j
  {
    ('a' as int + j) as char
  }

  predicate LowerWord(w: string) {
    forall i :: 0 <= i < |w| ==> IsLower(w[i])
  }

  /** The child of t for letter c. */
  function Child(t: Trie, c: char): Option<Trie> {
    var j := Index(c);
    if 0 <= j < |t.next| then t.next[j] else None
  }

  /** The node reached from t along the letters of s. */
  function Find(t: Trie, s: string): Option<Trie>
    decreases |s|
  {
    if s == [] then Some(t)
    else match Child(t, s[0])
      case None => None
      case Some(u) => Find(u, s[1..])
  }

  /** The node at s exists and ends a word. */
  predicate TermAt(t: Trie, s: string) {
    Find(t, s).Some? && Find(t, s).value.term
  }

  /** initTrie: a node that ends no word and has no children. */
  function InitTrie(): (t: Trie)
    ensures Valid(t) && !t.term
    ensures forall j :: 0 <= j < NAlpha ==> t.next[j] == None
  {
    Node(false, "", seq(NAlpha, _ => None))
  }

  /** addTrie(t, word, remainder): the letter path of remainder below t,
      created where it is missing, whose last node ends word. */
  function AddTrie(t: Trie, word: string, rem: string): (r: Trie)
    requires Valid(t) && LowerWord(rem)
    ensures Valid(r)
    decreases |rem|
  {
    if rem == [] then t.(term := true, word := word)
    else
      var j := Index(rem[0]);
      var child := if t.next[j].None? then InitTrie() else t.next[j].value;
      t.(next := t.next[j := Some(AddTrie(child, word, rem[1..]))])
  }

  predicate IsPrefix(v: string, w: string) {
    |v| <= |w| && w[..|v|] == v
  }

  /** After addTrie(t, word, rem) a path exists exactly where it existed
      before or where it is a prefix of rem; rem and only rem becomes the
      end of a word, which is word, and every other word end keeps its
      word. */
  lemma {:induction false} AddTrieEffect(t: Trie, word: string, rem: string, v: string)
    requires Valid(t) && LowerWord(rem)
    ensures Find(AddTrie(t, word, rem), v).Some? <==> Find(t, v).Some? || IsPrefix(v, rem)
    ensures TermAt(AddTrie(t, word, rem), v) <==> TermAt(t, v) || v == rem
    ensures v == rem ==> Find(AddTrie(t, word, rem), v).value.word == word
    ensures v != rem && TermAt(t, v) ==> Find(AddTrie(t, word, rem), v).value.word == Find(t, v).value.word
    decreases |rem|
  {
    var r := AddTrie(t, word, rem);
    if rem != [] && v != [] {
      var j := Index(rem[0]);
      var child := if t.next[j].None? then InitTrie() else t.next[j].value;
      if v[0] == rem[0] {
        AddTrieEffect(child, word, rem[1..], v[1..]);
        assert Child(r, v[0]) == Some(AddTrie(child, word, rem[1..]));
        if t.next[j].None? {
          EmptyFinds(v[1..]);
        }
        assert IsPrefix(v, rem) <==> IsPrefix(v[1..], rem[1..]) by {
          if |v| <= |rem| {
            assert rem[..|v|] == [rem[0]] + rem[1..][..|v| - 1];
            assert v == [v[0]] + v[1..];
          }
        }
        assert v == rem <==> v[1..] == rem[1..] by {
          assert v == [v[0]] + v[1..] && rem == [rem[0]] + rem[1..];
        }
      } else {
        assert Child(r, v[0]) == Child(t, v[0]);
      }
    }
  }

  /** Below a fresh node only the empty path exists, and it ends no word. */
  lemma EmptyFinds(s: string)
    ensures Find(InitTrie(), s).Some? <==> s == []
    ensures !TermAt(InitTrie(), s)
  {
    if s != [] {
      assert Child(InitTrie(), s[0]) == None;
    }
  }

  /** searchTrie: true exactly when the letter path of word exists below t,
      whether or not it ends a word. */
  function SearchTrie(t: Trie, word: string): (found: bool)
    requires Valid(t) && LowerWord(word)
    ensures found <==> Find(t, word).Some?
    decreases |word|
  {
    if word == [] then true
    else
      var index := Index(word[0]);
      if t.next[index].None? then false
      else SearchTrie(t.next[index].value, word[1..])
  }

  /** Every prefix of a word added by addTrie(t, w, w) is found. */
  lemma PrefixesFound(t: Trie, w: string, v: string)
    requires Valid(t) && LowerWord(w) && IsPrefix(v, w)
    ensures LowerWord(v) && SearchTrie(AddTrie(t, w, w), v)
  {
    AddTrieEffect(t, w, w, v);
  }

  // ---------------------------------------------------------------------
  // The dictionary

  /** What filterLine keeps of a line read with its newline: the line
      without its last character, lower-cased, when that is not empty and
      holds only letters. */
  function Filtered(line: string): (r: Option<string>)
    requires line != []
  {
    var body := line[..|line| - 1];
    if body == [] || exists i :: 0 <= i < |body| && !IsAlpha(body[i]) then None
    else Some(Lowered(body))
  }

  function Lowered(s: string): (r: string)
    ensures |r| == |s| && forall i :: 0 <= i < |s| ==> r[i] == ToLower(s[i])
  {
    if s == [] then [] else Lowered(s[..|s| - 1]) + [ToLower(s[|s| - 1])]
  }

  /** A kept line is a non-empty lower-case word, one letter shorter than
      the line and agreeing with it up to case. */
  lemma FilteredIsWord(line: string)
    requires line != []
    ensures Filtered(line).Some? ==>
      && var w := Filtered(line).value;
      && |w| == |line| - 1 && w != [] && LowerWord(w)
      && forall i :: 0 <= i < |w| ==> w[i] == ToLower(line[i])
    ensures Filtered(line).Some? <==> |line| > 1 && forall i :: 0 <= i < |line| - 1 ==> IsAlpha(line[i])
  {
    var body := line[..|line| - 1];
    assert forall i :: 0 <= i < |body| ==> body[i] == line[i];
  }

  /** filterLine */
  method FilterLine(line: string) returns (r: Option<string>)
    requires line != []
    ensures r == Filtered(line)
  {
    var len := |line| - 1;
    if len == 0 {
      return None;
    }
    var newl := new char[len];
    for i := 0 to len
      invariant forall k :: 0 <= k < i ==> IsAlpha(line[k]) && newl[k] == ToLower(line[k])
    {
      if IsLower(line[i]) {
        newl[i] := line[i];
      } else if IsUpper(line[i]) {
        newl[i] := ToLower(line[i]);
      } else {
        assert !IsAlpha(line[..len][i]);
        return None;
      }
    }
    r := Some(newl[..]);
    assert newl[..] == Lowered(line[..len]);
  }

  /** The trie parseInput leaves: each line that filterLine keeps is added
      to it in turn, as its own word. */
  function Dictionary(lines: seq<string>): (t: Trie)
    requires forall i :: 0 <= i < |lines| ==> lines[i] != []
    ensures Valid(t)
  {
    if lines == [] then InitTrie()
    else
      var t := Dictionary(lines[..|lines| - 1]);
      var f := Filtered(lines[|lines| - 1]);
      if f.None? then t
      else
        FilteredIsWord(lines[|lines| - 1]);
        AddTrie(t, f.value, f.value)
  }

  /** A word kept from one of the lines. */
  predicate Accepted(lines: seq<string>, w: string)
    requires forall i :: 0 <= i < |lines| ==> lines[i] != []
  {
    exists i :: 0 <= i < |lines| && Filtered(lines[i]) == Some(w)
  }

  /** A prefix of a word kept from one of the lines. */
  predicate PrefixAccepted(lines: seq<string>, v: string)
    requires forall i :: 0 <= i < |lines| ==> lines[i] != []
  {
    exists i :: 0 <= i < |lines| && Filtered(lines[i]).Some? && IsPrefix(v, Filtered(lines[i]).value)
  }

  /** In the dictionary a path exists exactly for the prefixes of kept
      words. */
  lemma {:induction false} DictionaryPaths(lines: seq<string>, v: string)
    requires forall i :: 0 <= i < |lines| ==> lines[i] != []
    ensures Find(Dictionary(lines), v).Some? <==> v == [] || PrefixAccepted(lines, v)
  {
    if lines == [] {
      EmptyFinds(v);
    } else {
      var p, last := lines[..|lines| - 1], lines[|lines| - 1];
      DictionaryPaths(p, v);
      LastLine(p, last, v);
      assert p + [last] == lines;
      var f := Filtered(last);
      if f.Some? {
        FilteredIsWord(last);
        AddTrieEffect(Dictionary(p), f.value, f.value, v);
      }
    }
  }

  /** The words the dictionary ends are exactly the kept words, each stored
      as itself; the root ends no word. */
  lemma {:induction false} DictionaryWords(lines: seq<string>, v: string)
    requires forall i :: 0 <= i < |lines| ==> lines[i] != []
    ensures TermAt(Dictionary(lines), v) <==> Accepted(lines, v)
    ensures TermAt(Dictionary(lines), v) ==> Find(Dictionary(lines), v).value.word == v && v != []
  {
    if lines == [] {
      EmptyFinds(v);
    } else {
      var p, last := lines[..|lines| - 1], lines[|lines| - 1];
      DictionaryWords(p, v);
      LastLine(p, last, v);
      assert p + [last] == lines;
      var f := Filtered(last);
      if f.Some? {
        FilteredIsWord(last);
        AddTrieEffect(Dictionary(p), f.value, f.value, v);
      }
    }
  }

  /** The words and prefixes kept from one more line. */
  lemma LastLine(p: seq<string>, last: string, v: string)
    requires (forall i :: 0 <= i < |p| ==> p[i] != []) && last != []
    ensures Accepted(p + [last], v) <==> Accepted(p, v) || Filtered(last) == Some(v)
    ensures PrefixAccepted(p + [last], v) <==>
      PrefixAccepted(p, v) || (Filtered(last).Some? && IsPrefix(v, Filtered(last).value))
  {
    var lines := p + [last];
    assert forall i :: 0 <= i < |p| ==> lines[i] == p[i];
    assert lines[|p|] == last;
    if Accepted(lines, v) {
      var i :| 0 <= i < |lines| && Filtered(lines[i]) == Some(v);
      assert i < |p| ==> Filtered(p[i]) == Some(v);
    }
    if PrefixAccepted(lines, v) {
      var i :| 0 <= i < |lines| && Filtered(lines[i]).Some? && IsPrefix(v, Filtered(lines[i]).value);
      assert i < |p| ==> Filtered(p[i]).Some? && IsPrefix(v, Filtered(p[i]).value);
    }
  }

  /** parseInput, for the lines getLine returns: filterLine on each, and
      addTrie with each word it keeps. */
  method ParseInput(lines: seq<string>) returns (t: Trie)
    requires forall i :: 0 <= i < |lines| ==> lines[i] != []
    ensures t == Dictionary(lines)
  {
    t := InitTrie();
    for i := 0 to |lines|
      invariant t == Dictionary(lines[..i])
    {
      assert lines[..i + 1][..i] == lines[..i];
      var line := FilterLine(lines[i]);
      if line.Some? {
        FilteredIsWord(lines[i]);
        t := AddTrie(t, line.value, line.value);
      }
    }
    assert lines[..|lines|] == lines;
  }

  // ---------------------------------------------------------------------
  // The board

  /** The options and the board: -c, -t, the numbers of rows and columns and
      the cells row by row. */
  datatype Rule = Rule(c: bool, t: bool, nr: int, nc: int, board: string)

  /** A cell holds a letter or the blank '_'. */
  predicate CellOk(x: char) {
    IsAlpha(x) || x == '_'
  }

  /** What parseArgs guarantees of the rule it accepts. */
  predicate RuleOk(rule: Rule) {
    && rule.nr >= 1 && rule.nc >= 1 && |rule.board| == rule.nr * rule.nc
    && forall i :: 0 <= i < |rule.board| ==> CellOk(rule.board[i])
  }

  const Usage := "Boggle: usage: Boggle [-c] [-t] nRows nCols board"

  /** The options before nRows are acceptable: none, -c or -t alone, or -c
      followed by -t. */
  predicate OptionsOk(args: seq<string>)
    requires 4 <= |args| <= 6
  {
    || |args| == 4
    || (|args| == 5 && (args[1] == "-c" || args[1] == "-t"))
    || (|args| == 6 && args[1] == "-c" && args[2] == "-t")
  }

  /** The arguments parseArgs accepts: four to six of them, acceptable
      options, at least one row and one column, and a board of nr * nc
      letters and blanks. */
  predicate ArgsOk(args: seq<string>, values: seq<int>)
    requires |values| == |args|
  {
    && 4 <= |args| <= 6 && OptionsOk(args)
    && var cur := |args| - 3;
    && values[cur] >= 1 && values[cur + 1] >= 1
    && |args[cur + 2]| == values[cur] * values[cur + 1]
    && BoardOk(args[cur + 2])
  }

  predicate BoardOk(board: string) {
    forall i :: 0 <= i < |board| ==> CellOk(board[i])
  }

  /** parseArgs, for argv with the atoi value of each argument: the rule, or
      the message die prints for the first check that fails. */
  method ParseArgs(args: seq<string>, values: seq<int>) returns (r: Result<Rule, string>)
    requires |values| == |args|
    ensures (|args| < 4 || |args| > 6) ==> r == Err(Usage)
    ensures 4 <= |args| <= 6 && !OptionsOk(args) ==> r == Err(Usage)
    ensures 4 <= |args| <= 6 && OptionsOk(args) ==>
      var cur := |args| - 3;
      var nr, nc, board := values[cur], values[cur + 1], args[cur + 2];
      && (nr < 1 ==> r == Err("Boggle: invalid nr"))
      && (nr >= 1 && nc < 1 ==> r == Err("Boggle: invalid nc"))
      && (nr >= 1 && nc >= 1 && |board| != nr * nc ==> r == Err("Boggle: board is not nRows x nCols"))
      && (nr >= 1 && nc >= 1 && |board| == nr * nc ==>
        && ((exists i :: 0 <= i < |board| && !CellOk(board[i])) ==> r == Err("Boggle: board must be alphabetic or blank"))
        && ((forall i :: 0 <= i < |board| ==> CellOk(board[i])) ==>
          r == Ok(Rule(|args| == 6 || (|args| == 5 && args[1] == "-c"), |args| == 6 || (|args| == 5 && args[1] == "-t"), nr, nc, board))))
    ensures r.Ok? ==> RuleOk(r.value)
    ensures r.Ok? <==> ArgsOk(args, values)
  {
    var cur := 1;
    var c, t := false, false;
    if |args| < 4 || |args| > 6 {
      return Err(Usage);
    }
    if |args| == 6 {
      if args[1] != "-c" || args[2] != "-t" {
        return Err(Usage);
      }
      cur := 3;
      c, t := true, true;
    } else if |args| == 5 {
      if args[cur] == "-c" {
        c := true;
      } else if args[cur] == "-t" {
        t := true;
      } else {
        return Err(Usage);
      }
      cur := cur + 1;
    }
    var nr := values[cur];
    cur := cur + 1;
    if nr < 1 {
      return Err("Boggle: invalid nr");
    }
    var nc := values[cur];
    cur := cur + 1;
    if nc < 1 {
      return Err("Boggle: invalid nc");
    }
    var board := args[cur];
    if |board| != nr * nc {
      return Err("Boggle: board is not nRows x nCols");
    }
    var len := nr * nc;
    for i := 0 to len
      invariant forall k :: 0 <= k < i ==> CellOk(board[k])
    {
      if !IsAlpha(board[i]) && board[i] != '_' {
        return Err("Boggle: board must be alphabetic or blank");
      }
    }
    return Ok(Rule(c, t, nr, nc, board));
  }

  /** The cells validMoves fills for cell cur: up, down, left, right,
      up-left, up-right, down-left and down-right, each -1 off the board. */
  function Moves(nr: int, nc: int, cur: int): (m: seq<int>)
    requires nr >= 1 && nc >= 1 && 0 <= cur < nr * nc
    ensures |m| == Directions
  {
    var u := cur / nc > 0;
    var d := cur / nc < nr - 1;
    var l := cur % nc > 0;
    var r := cur % nc < nc - 1;
    [ if u then cur - nc else -1,
      if d then cur + nc else -1,
      if l then cur - 1 else -1,
      if r then cur + 1 else -1,
      if u && l then cur - nc - 1 else -1,
      if u && r then cur - nc + 1 else -1,
      if d && l then cur + nc - 1 else -1,
      if d && r then cur + nc + 1 else -1 ]
  }

  /** validMoves */
  method ValidMoves(moves: array<int>, rule: Rule, cur: int)
    requires RuleOk(rule) && 0 <= cur < rule.nr * rule.nc && moves.Length == Directions
    modifies moves
    ensures moves[..] == Moves(rule.nr, rule.nc, cur)
  {
    var u := cur / rule.nc > 0;
    moves[0] := if u then cur - rule.nc else -1;
    var d := cur / rule.nc < rule.nr - 1;
    moves[1] := if d then cur + rule.nc else -1;
    var l := cur % rule.nc > 0;
    moves[2] := if l then cur - 1 else -1;
    var r := cur % rule.nc < rule.nc - 1;
    moves[3] := if r then cur + 1 else -1;
    moves[4] := if u && l then cur - rule.nc - 1 else -1;
    moves[5] := if u && r then cur - rule.nc + 1 else -1;
    moves[6] := if d && l then cur + rule.nc - 1 else -1;
    moves[7] := if d && r then cur + rule.nc + 1 else -1;
  }

  /** Cells a and b of an nr x nc board touch: different cells whose rows
      and columns each differ by at most one. */
  predicate Adjacent(nr: int, nc: int, a: int, b: int)
    requires nc >= 1
  {
    && 0 <= b < nr * nc && a != b
    && -1 <= b / nc - a / nc <= 1
    && -1 <= b % nc - a % nc <= 1
  }

  /** Cell row * nc + col lies at row row and column col. */
  lemma Cell(nc: int, row: int, col: int)
    requires nc >= 1 && 0 <= col < nc
    ensures (row * nc + col) / nc == row && (row * nc + col) % nc == col
  {
    var x := row * nc + col;
    var q, r := x / nc, x % nc;
    assert (q - row) * nc == col - r by {
      assert q * nc + r == x;
      assert (q - row) * nc == q * nc - row * nc;
    }
    if q > row {
      AtLeastOnce(q - row, nc);
    } else if q < row {
      AtLeastOnce(row - q, nc);
    }
  }

  lemma AtLeastOnce(k: int, n: int)
    requires k >= 1 && n >= 1
    ensures k * n >= n
  {
    assert k * n == (k - 1) * n + n;
    assert (k - 1) * n >= 0;
  }

  /** The row and column steps of the eight directions, in validMoves'
      order. */
  const Steps: seq<(int, int)> := [(-1, 0), (1, 0), (0, -1), (0, 1), (-1, -1), (-1, 1), (1, -1), (1, 1)]

  /** The distance between cur and the cell dr rows and dc columns away. */
  function Offset(nc: int, dr: int, dc: int): int
  {
    (if dr < 0 then -nc else if dr > 0 then nc else 0) + dc
  }

  /** Slot d of validMoves is the cell one step in direction d, or -1 when
      that step leaves the board. */
  lemma SlotIsStep(nr: int, nc: int, cur: int, d: int)
    requires nr >= 1 && nc >= 1 && 0 <= cur < nr * nc && 0 <= d < Directions
    ensures var (dr, dc) := Steps[d];
      var row, col := cur / nc + dr, cur % nc + dc;
      Moves(nr, nc, cur)[d] == if 0 <= row < nr && 0 <= col < nc then cur + Offset(nc, dr, dc) else -1
  {
    RowInRange(nr, nc, cur);
  }

  /** Every cell of the board lies in one of its rows. */
  lemma RowInRange(nr: int, nc: int, cur: int)
    requires nr >= 1 && nc >= 1 && 0 <= cur < nr * nc
    ensures 0 <= cur / nc < nr
  {
    var row := cur / nc;
    assert row * nc + cur % nc == cur;
  }

  /** A step of dr rows and dc columns moves by Offset(nc, dr, dc). */
  lemma StepIsCell(nc: int, row: int, col: int, dr: int, dc: int)
    requires -1 <= dr <= 1
    ensures row * nc + col + Offset(nc, dr, dc) == (row + dr) * nc + (col + dc)
  {
    assert (row + dr) * nc == row * nc + dr * nc;
  }

  /** A cell given by an in-range row and column is on the board. */
  lemma CellOnBoard(nr: int, nc: int, row: int, col: int)
    requires nc >= 1 && 0 <= row < nr && 0 <= col < nc
    ensures 0 <= row * nc + col < nr * nc
  {
    assert nr * nc == row * nc + (nr - row) * nc;
    AtLeastOnce(nr - row, nc);
  }

  /** The cell a step of at most one row and one column away from cur, when
      it is on the board. */
  lemma StepCell(nr: int, nc: int, cur: int, dr: int, dc: int)
    requires nr >= 1 && nc >= 1 && 0 <= cur < nr * nc
    requires -1 <= dr <= 1 && -1 <= dc <= 1
    requires 0 <= cur / nc + dr < nr && 0 <= cur % nc + dc < nc
    ensures var b := cur + Offset(nc, dr, dc);
      && b / nc == cur / nc + dr && b % nc == cur % nc + dc
      && (Adjacent(nr, nc, cur, b) <==> (dr, dc) != (0, 0))
  {
    var row, col := cur / nc, cur % nc;
    assert cur == row * nc + col;
    StepIsCell(nc, row, col, dr, dc);
    Cell(nc, row + dr, col + dc);
    CellOnBoard(nr, nc, row + dr, col + dc);
  }

  /** The cell in row row + dr and column col + dc is cur + Offset(nc, dr, dc). */
  lemma StepOfCell(nr: int, nc: int, cur: int, b: int)
    requires nr >= 1 && nc >= 1 && 0 <= cur < nr * nc && Adjacent(nr, nc, cur, b)
    ensures b == cur + Offset(nc, b / nc - cur / nc, b % nc - cur % nc)
    ensures 0 <= b / nc < nr
  {
    var row, col := cur / nc, cur % nc;
    assert cur == row * nc + col;
    assert b == (b / nc) * nc + b % nc;
    StepIsCell(nc, row, col, b / nc - row, b % nc - col);
    RowInRange(nr, nc, b);
  }

  /** Slot d of validMoves is -1 or the adjacent cell one step in direction d. */
  lemma SlotAdjacent(nr: int, nc: int, cur: int, d: int)
    requires nr >= 1 && nc >= 1 && 0 <= cur < nr * nc && 0 <= d < Directions
    ensures var m := Moves(nr, nc, cur)[d];
      m == -1 || (Adjacent(nr, nc, cur, m) && m / nc == cur / nc + Steps[d].0 && m % nc == cur % nc + Steps[d].1)
  {
    SlotIsStep(nr, nc, cur, d);
    var (dr, dc) := Steps[d];
    if 0 <= cur / nc + dr < nr && 0 <= cur % nc + dc < nc {
      StepCell(nr, nc, cur, dr, dc);
    }
  }

  /** The slots of validMoves are -1 or cells adjacent to cur. */
  lemma MovesAdjacent(nr: int, nc: int, cur: int)
    requires nr >= 1 && nc >= 1 && 0 <= cur < nr * nc
    ensures forall d :: 0 <= d < Directions ==> Moves(nr, nc, cur)[d] == -1 || Adjacent(nr, nc, cur, Moves(nr, nc, cur)[d])
  {
    forall d | 0 <= d < Directions
      ensures Moves(nr, nc, cur)[d] == -1 || Adjacent(nr, nc, cur, Moves(nr, nc, cur)[d])
    {
      SlotAdjacent(nr, nc, cur, d);
    }
  }

  /** Every cell adjacent to cur is in a slot of validMoves. */
  lemma MovesCover(nr: int, nc: int, cur: int, b: int)
    requires nr >= 1 && nc >= 1 && 0 <= cur < nr * nc && Adjacent(nr, nc, cur, b)
    ensures b in Moves(nr, nc, cur)
  {
    StepOfCell(nr, nc, cur, b);
    var dr, dc := b / nc - cur / nc, b % nc - cur % nc;
    var d := if (dr, dc) == (-1, 0) then 0 else if (dr, dc) == (1, 0) then 1
      else if (dr, dc) == (0, -1) then 2 else if (dr, dc) == (0, 1) then 3
      else if (dr, dc) == (-1, -1) then 4 else if (dr, dc) == (-1, 1) then 5
      else if (dr, dc) == (1, -1) then 6 else 7;
    SlotIsStep(nr, nc, cur, d);
    assert Moves(nr, nc, cur)[d] == b;
  }

  /** No cell is in two slots of validMoves. */
  lemma MovesDistinct(nr: int, nc: int, cur: int, d: int, e: int)
    requires nr >= 1 && nc >= 1 && 0 <= cur < nr * nc && 0 <= d < e < Directions
    requires Moves(nr, nc, cur)[d] != -1
    ensures Moves(nr, nc, cur)[d] != Moves(nr, nc, cur)[e]
  {
    SlotAdjacent(nr, nc, cur, d);
    SlotAdjacent(nr, nc, cur, e);
  }

  // ---------------------------------------------------------------------
  // Walking the board

  /** Board cell x may stand for the letter c: a blank stands for every
      letter, a letter for itself in either case. */
  predicate Matches(x: char, c: char) {
    x == '_' || ToLower(x) == c
  }

  /** The cells still usable after a step onto m: with -t, m is used up. */
  function Use(rule: Rule, av: seq<bool>, m: int): (r: seq<bool>)
    requires 0 <= m < |av|
    ensures |r| == |av|
    ensures rule.t ==> !r[m] && forall i :: 0 <= i < |av| && i != m ==> r[i] == av[i]
    ensures !rule.t ==> r == av
  {
    if rule.t then av[m := false] else av
  }

  /** What a walk needs: an accepted rule, a node with one slot per letter,
      a cell of the board and one availability flag per cell. */
  predicate WalkOk(rule: Rule, t: Trie, cur: int, av: seq<bool>) {
    RuleOk(rule) && Valid(t) && 0 <= cur < |rule.board| && |av| == |rule.board|
  }

  lemma ChildValid(t: Trie, c: char)
    requires Valid(t) && Child(t, c).Some?
    ensures Valid(Child(t, c).value)
  {
  }

  /** How much walkTrie(t, rule, cur, avlb) adds to the count of the node at
      path s below t, when the cells usable are av: one if s is empty and t
      ends a word, otherwise what the eight directions add together. */
  function Gain(rule: Rule, t: Trie, cur: int, av: seq<bool>, s: string): nat
    requires WalkOk(rule, t, cur, av)
    decreases |s|, 2
  {
    if s == [] then (if t.term then 1 else 0)
    else DirsGain(rule, t, cur, av, s, Directions)
  }

  /** What the first k directions add to the count at s. */
  function DirsGain(rule: Rule, t: Trie, cur: int, av: seq<bool>, s: string, k: int): nat
    requires WalkOk(rule, t, cur, av) && s != [] && 0 <= k <= Directions
    decreases |s|, 1, k
  {
    if k == 0 then 0
    else DirsGain(rule, t, cur, av, s, k - 1) + DirGain(rule, t, cur, av, s, k - 1)
  }

  /** What direction d adds to the count at s: when the cell m there is on
      the board, usable and may stand for the first letter of s, and t has
      a child for it, the walk from that child at m. */
  function DirGain(rule: Rule, t: Trie, cur: int, av: seq<bool>, s: string, d: int): nat
    requires WalkOk(rule, t, cur, av) && s != [] && 0 <= d < Directions
    decreases |s|, 0
  {
    SlotAdjacent(rule.nr, rule.nc, cur, d);
    var m := Moves(rule.nr, rule.nc, cur)[d];
    if m == -1 || !av[m] || !Matches(rule.board[m], s[0]) || Child(t, s[0]).None? then 0
    else
      ChildValid(t, s[0]);
      Gain(rule, Child(t, s[0]).value, m, Use(rule, av, m), s[1..])
  }

  /** cells is a walk from cur that spells s: each cell touches the one
      before it, is usable when it is reached and may stand for its
      letter. */
  predicate IsWalk(rule: Rule, cur: int, av: seq<bool>, s: string, cells: seq<int>)
    requires RuleOk(rule) && |av| == |rule.board|
    decreases |s|
  {
    && |cells| == |s|
    && (s != [] ==>
      && Adjacent(rule.nr, rule.nc, cur, cells[0])
      && av[cells[0]] && Matches(rule.board[cells[0]], s[0])
      && IsWalk(rule, cells[0], Use(rule, av, cells[0]), s[1..], cells[1..]))
  }

  /** The first k directions add something exactly when one of them
      does. */
  lemma {:induction false} DirsGainPositive(rule: Rule, t: Trie, cur: int, av: seq<bool>, s: string, k: int)
    requires WalkOk(rule, t, cur, av) && s != [] && 0 <= k <= Directions
    ensures DirsGain(rule, t, cur, av, s, k) > 0 <==> exists d :: 0 <= d < k && DirGain(rule, t, cur, av, s, d) > 0
  {
    if k > 0 {
      DirsGainPositive(rule, t, cur, av, s, k - 1);
      if DirGain(rule, t, cur, av, s, k - 1) > 0 {
        assert exists d :: 0 <= d < k && DirGain(rule, t, cur, av, s, d) > 0;
      }
      if exists d :: 0 <= d < k && DirGain(rule, t, cur, av, s, d) > 0 {
        var d :| 0 <= d < k && DirGain(rule, t, cur, av, s, d) > 0;
        assert d == k - 1 || exists e :: 0 <= e < k - 1 && DirGain(rule, t, cur, av, s, e) > 0;
      }
    }
  }

  /** The first k directions add at least what each of them adds. */
  lemma {:induction false} DirsGainAtLeast(rule: Rule, t: Trie, cur: int, av: seq<bool>, s: string, k: int, d: int)
    requires WalkOk(rule, t, cur, av) && s != [] && 0 <= d < k <= Directions
    ensures DirsGain(rule, t, cur, av, s, k) >= DirGain(rule, t, cur, av, s, d)
  {
    if d < k - 1 {
      DirsGainAtLeast(rule, t, cur, av, s, k - 1, d);
    }
  }

  /** A walk adds to the count of the node at s exactly when s ends a word
      below t and the board holds a walk from cur that spells s. */
  lemma GainIffWalk(rule: Rule, t: Trie, cur: int, av: seq<bool>, s: string)
    requires WalkOk(rule, t, cur, av)
    ensures Gain(rule, t, cur, av, s) > 0 <==> TermAt(t, s) && exists cells :: IsWalk(rule, cur, av, s, cells)
  {
    if Gain(rule, t, cur, av, s) > 0 {
      var cells := GainHasWalk(rule, t, cur, av, s);
      assert exists c :: IsWalk(rule, cur, av, s, c);
    } else if TermAt(t, s) && exists cells :: IsWalk(rule, cur, av, s, cells) {
      var cells :| IsWalk(rule, cur, av, s, cells);
      WalkHasGain(rule, t, cur, av, s, cells);
    }
  }

  /** Every direction that adds to a count leads to a walk spelling s. */
  lemma {:induction false} GainHasWalk(rule: Rule, t: Trie, cur: int, av: seq<bool>, s: string) returns (cells: seq<int>)
    requires WalkOk(rule, t, cur, av) && Gain(rule, t, cur, av, s) > 0
    ensures TermAt(t, s) && IsWalk(rule, cur, av, s, cells)
    decreases |s|
  {
    if s == [] {
      cells := [];
    } else {
      DirsGainPositive(rule, t, cur, av, s, Directions);
      var d :| 0 <= d < Directions && DirGain(rule, t, cur, av, s, d) > 0;
      SlotAdjacent(rule.nr, rule.nc, cur, d);
      var m := Moves(rule.nr, rule.nc, cur)[d];
      ChildValid(t, s[0]);
      var rest := GainHasWalk(rule, Child(t, s[0]).value, m, Use(rule, av, m), s[1..]);
      cells := [m] + rest;
      assert cells[1..] == rest;
    }
  }

  /** A walk spelling a word below t adds to its count. */
  lemma {:induction false} WalkHasGain(rule: Rule, t: Trie, cur: int, av: seq<bool>, s: string, cells: seq<int>)
    requires WalkOk(rule, t, cur, av) && TermAt(t, s) && IsWalk(rule, cur, av, s, cells)
    ensures Gain(rule, t, cur, av, s) > 0
    decreases |s|
  {
    if s != [] {
      var m := cells[0];
      MovesCover(rule.nr, rule.nc, cur, m);
      var d :| 0 <= d < Directions && Moves(rule.nr, rule.nc, cur)[d] == m;
      var u := Child(t, s[0]);
      assert u.Some? && Find(t, s) == Find(u.value, s[1..]);
      ChildValid(t, s[0]);
      WalkHasGain(rule, u.value, m, Use(rule, av, m), s[1..], cells[1..]);
      assert DirGain(rule, t, cur, av, s, d) == Gain(rule, u.value, m, Use(rule, av, m), s[1..]);
      DirsGainAtLeast(rule, t, cur, av, s, Directions, d);
    }
  }

  /** With -t a walk only steps on cells usable at its start, and never on
      the same cell twice. */
  lemma {:induction false} WalkUsesCellsOnce(rule: Rule, cur: int, av: seq<bool>, s: string, cells: seq<int>)
    requires RuleOk(rule) && |av| == |rule.board| && rule.t && IsWalk(rule, cur, av, s, cells)
    ensures forall k :: 0 <= k < |cells| ==> 0 <= cells[k] < |av| && av[cells[k]]
    ensures forall i, j :: 0 <= i < j < |cells| ==> cells[i] != cells[j]
    decreases |s|
  {
    if s != [] {
      var m := cells[0];
      var rest := cells[1..];
      WalkUsesCellsOnce(rule, m, Use(rule, av, m), s[1..], rest);
      assert forall k :: 1 <= k < |cells| ==> cells[k] == rest[k - 1];
    }
  }

  /** The walks from cur that spell s, grouped as walkTrie explores them:
      by the direction of their first step. */
  function Walks(rule: Rule, cur: int, av: seq<bool>, s: string): set<seq<int>>
    requires RuleOk(rule) && 0 <= cur < |rule.board| && |av| == |rule.board|
    decreases |s|, 2
  {
    if s == [] then {[]} else DirsWalks(rule, cur, av, s, Directions)
  }

  /** The walks spelling s whose first step is one of the first k
      directions. */
  function DirsWalks(rule: Rule, cur: int, av: seq<bool>, s: string, k: int): set<seq<int>>
    requires RuleOk(rule) && 0 <= cur < |rule.board| && |av| == |rule.board| && s != [] && 0 <= k <= Directions
    decreases |s|, 1, k
  {
    if k == 0 then {} else DirsWalks(rule, cur, av, s, k - 1) + DirWalks(rule, cur, av, s, k - 1)
  }

  /** The walks spelling s whose first step is in direction d. */
  function DirWalks(rule: Rule, cur: int, av: seq<bool>, s: string, d: int): set<seq<int>>
    requires RuleOk(rule) && 0 <= cur < |rule.board| && |av| == |rule.board| && s != [] && 0 <= d < Directions
    decreases |s|, 0
  {
    SlotAdjacent(rule.nr, rule.nc, cur, d);
    var m := Moves(rule.nr, rule.nc, cur)[d];
    if m == -1 || !av[m] || !Matches(rule.board[m], s[0]) then {}
    else Prepend(m, Walks(rule, m, Use(rule, av, m), s[1..]))
  }

  /** Each walk of S preceded by cell m. */
  function Prepend(m: int, S: set<seq<int>>): set<seq<int>> {
    set w | w in S :: [m] + w
  }

  lemma {:induction false} PrependSize(m: int, S: set<seq<int>>)
    ensures |Prepend(m, S)| == |S|
    decreases |S|
  {
    if S != {} {
      var w :| w in S;
      var rest := S - {w};
      PrependSize(m, rest);
      assert Prepend(m, S) == Prepend(m, rest) + {[m] + w} by {
        forall x | x in Prepend(m, S)
          ensures x in Prepend(m, rest) + {[m] + w}
        {
          var v :| v in S && x == [m] + v;
          assert v == w || v in rest;
        }
      }
      assert [m] + w !in Prepend(m, rest) by {
        forall v | v in rest
          ensures [m] + v != [m] + w
        {
          assert ([m] + v)[1..] == v && ([m] + w)[1..] == w;
        }
      }
    }
  }

  /** Walks exactly collects the walks from cur that spell s. */
  lemma WalksAreWalks(rule: Rule, cur: int, av: seq<bool>, s: string, cells: seq<int>)
    requires RuleOk(rule) && 0 <= cur < |rule.board| && |av| == |rule.board|
    ensures cells in Walks(rule, cur, av, s) <==> IsWalk(rule, cur, av, s, cells)
  {
    if cells in Walks(rule, cur, av, s) {
      InWalksIsWalk(rule, cur, av, s, cells);
    }
    if IsWalk(rule, cur, av, s, cells) {
      WalkInWalks(rule, cur, av, s, cells);
    }
  }

  lemma {:induction false} InWalksIsWalk(rule: Rule, cur: int, av: seq<bool>, s: string, cells: seq<int>)
    requires RuleOk(rule) && 0 <= cur < |rule.board| && |av| == |rule.board|
    requires cells in Walks(rule, cur, av, s)
    ensures IsWalk(rule, cur, av, s, cells)
    decreases |s|
  {
    if s != [] {
      DirsWalksStart(rule, cur, av, s, Directions, cells);
      var d :| 0 <= d < Directions && cells in DirWalks(rule, cur, av, s, d);
      SlotAdjacent(rule.nr, rule.nc, cur, d);
      var m := Moves(rule.nr, rule.nc, cur)[d];
      var w :| w in Walks(rule, m, Use(rule, av, m), s[1..]) && cells == [m] + w;
      assert cells[0] == m && cells[1..] == w;
      InWalksIsWalk(rule, m, Use(rule, av, m), s[1..], w);
    }
  }

  lemma {:induction false} WalkInWalks(rule: Rule, cur: int, av: seq<bool>, s: string, cells: seq<int>)
    requires RuleOk(rule) && 0 <= cur < |rule.board| && |av| == |rule.board|
    requires IsWalk(rule, cur, av, s, cells)
    ensures cells in Walks(rule, cur, av, s)
    decreases |s|
  {
    if s != [] {
      var m := cells[0];
      MovesCover(rule.nr, rule.nc, cur, m);
      var d :| 0 <= d < Directions && Moves(rule.nr, rule.nc, cur)[d] == m;
      WalkInWalks(rule, m, Use(rule, av, m), s[1..], cells[1..]);
      DirsWalksHas(rule, cur, av, s, Directions, d, cells);
    }
  }

  /** A walk grouped under the first k directions lies in the group of one
      of them. */
  lemma {:induction false} DirsWalksStart(rule: Rule, cur: int, av: seq<bool>, s: string, k: int, cells: seq<int>)
    requires RuleOk(rule) && 0 <= cur < |rule.board| && |av| == |rule.board| && s != [] && 0 <= k <= Directions
    ensures cells in DirsWalks(rule, cur, av, s, k) <==> exists d :: 0 <= d < k && cells in DirWalks(rule, cur, av, s, d)
  {
    if k > 0 {
      DirsWalksStart(rule, cur, av, s, k - 1, cells);
      if cells in DirWalks(rule, cur, av, s, k - 1) {
        assert exists d :: 0 <= d < k && cells in DirWalks(rule, cur, av, s, d);
      }
      if exists d :: 0 <= d < k && cells in DirWalks(rule, cur, av, s, d) {
        var d :| 0 <= d < k && cells in DirWalks(rule, cur, av, s, d);
        assert d == k - 1 || exists e :: 0 <= e < k - 1 && cells in DirWalks(rule, cur, av, s, e);
      }
    }
  }

  /** A walk whose first step is in direction d, with the rest a walk from
      there, is in the group of d. */
  lemma DirsWalksHas(rule: Rule, cur: int, av: seq<bool>, s: string, k: int, d: int, cells: seq<int>)
    requires RuleOk(rule) && 0 <= cur < |rule.board| && |av| == |rule.board| && s != [] && 0 <= d < k <= Directions
    requires |cells| > 0 && Moves(rule.nr, rule.nc, cur)[d] == cells[0] && Adjacent(rule.nr, rule.nc, cur, cells[0])
    requires av[cells[0]] && Matches(rule.board[cells[0]], s[0])
    requires cells[1..] in Walks(rule, cells[0], Use(rule, av, cells[0]), s[1..])
    ensures cells in DirsWalks(rule, cur, av, s, k)
  {
    assert cells == [cells[0]] + cells[1..];
    assert cells in DirWalks(rule, cur, av, s, d);
    DirsWalksStart(rule, cur, av, s, k, cells);
  }

  /** The count walkTrie adds at s is the number of walks from cur that
      spell s, when s ends a word below t, and zero otherwise. */
  lemma {:induction false} GainCountsWalks(rule: Rule, t: Trie, cur: int, av: seq<bool>, s: string)
    requires WalkOk(rule, t, cur, av)
    ensures Gain(rule, t, cur, av, s) == if TermAt(t, s) then |Walks(rule, cur, av, s)| else 0
    decreases |s|, 2
  {
    if s != [] {
      DirsGainCounts(rule, t, cur, av, s, Directions);
    }
  }

  lemma {:induction false} DirsGainCounts(rule: Rule, t: Trie, cur: int, av: seq<bool>, s: string, k: int)
    requires WalkOk(rule, t, cur, av) && s != [] && 0 <= k <= Directions
    ensures DirsGain(rule, t, cur, av, s, k) == if TermAt(t, s) then |DirsWalks(rule, cur, av, s, k)| else 0
    decreases |s|, 1, k
  {
    if k > 0 {
      DirsGainCounts(rule, t, cur, av, s, k - 1);
      DirGainCounts(rule, t, cur, av, s, k - 1);
      DirsWalksApart(rule, cur, av, s, k - 1);
      var a, b := DirsWalks(rule, cur, av, s, k - 1), DirWalks(rule, cur, av, s, k - 1);
      assert DirsWalks(rule, cur, av, s, k) == a + b;
      assert DirsGain(rule, t, cur, av, s, k)
        == DirsGain(rule, t, cur, av, s, k - 1) + DirGain(rule, t, cur, av, s, k - 1);
      assert |a + b| == |a| + |b| by {
        assert a * b == {};
      }
    }
  }

  lemma {:induction false} DirGainCounts(rule: Rule, t: Trie, cur: int, av: seq<bool>, s: string, d: int)
    requires WalkOk(rule, t, cur, av) && s != [] && 0 <= d < Directions
    ensures DirGain(rule, t, cur, av, s, d) == if TermAt(t, s) then |DirWalks(rule, cur, av, s, d)| else 0
    decreases |s|, 0
  {
    SlotAdjacent(rule.nr, rule.nc, cur, d);
    var m := Moves(rule.nr, rule.nc, cur)[d];
    var u := Child(t, s[0]);
    assert TermAt(t, s) <==> u.Some? && TermAt(u.value, s[1..]);
    if m != -1 && av[m] && Matches(rule.board[m], s[0]) && u.Some? {
      ChildValid(t, s[0]);
      GainCountsWalks(rule, u.value, m, Use(rule, av, m), s[1..]);
      PrependSize(m, Walks(rule, m, Use(rule, av, m), s[1..]));
    }
  }

  /** The walks of direction d start elsewhere than those of the directions
      before it. */
  lemma DirsWalksApart(rule: Rule, cur: int, av: seq<bool>, s: string, d: int)
    requires RuleOk(rule) && 0 <= cur < |rule.board| && |av| == |rule.board| && s != [] && 0 <= d < Directions
    ensures DirsWalks(rule, cur, av, s, d) * DirWalks(rule, cur, av, s, d) == {}
  {
    forall w | w in DirsWalks(rule, cur, av, s, d)
      ensures w !in DirWalks(rule, cur, av, s, d)
    {
      DirsWalksStart(rule, cur, av, s, d, w);
      var e :| 0 <= e < d && w in DirWalks(rule, cur, av, s, e);
      DirWalksStart(rule, cur, av, s, e, w);
      MovesDistinct(rule.nr, rule.nc, cur, e, d);
      if w in DirWalks(rule, cur, av, s, d) {
        DirWalksStart(rule, cur, av, s, d, w);
      }
    }
  }

  /** The walks of direction d start with the cell in slot d. */
  lemma DirWalksStart(rule: Rule, cur: int, av: seq<bool>, s: string, d: int, w: seq<int>)
    requires RuleOk(rule) && 0 <= cur < |rule.board| && |av| == |rule.board| && s != [] && 0 <= d < Directions
    requires w in DirWalks(rule, cur, av, s, d)
    ensures |w| > 0 && w[0] == Moves(rule.nr, rule.nc, cur)[d] != -1
  {
    var m := Moves(rule.nr, rule.nc, cur)[d];
    SlotAdjacent(rule.nr, rule.nc, cur, d);
    var v :| v in Walks(rule, m, Use(rule, av, m), s[1..]) && w == [m] + v;
  }

  // ---------------------------------------------------------------------
  // The counts

  /** The count of the node at path q, zero where none was added. */
  function Get(counts: map<string, nat>, q: string): nat {
    if q in counts then counts[q] else 0
  }

  /** What walkTrie at node t, the node at path, adds to the count at q. */
  function Gained(rule: Rule, path: string, t: Trie, cur: int, av: seq<bool>, q: string): nat
    requires WalkOk(rule, t, cur, av)
  {
    if IsPrefix(path, q) then Gain(rule, t, cur, av, q[|path|..]) else 0
  }

  /** What the first k directions of walkTrie at path add to the count at q. */
  function DirsAt(rule: Rule, path: string, t: Trie, cur: int, av: seq<bool>, k: int, q: string): nat
    requires WalkOk(rule, t, cur, av) && 0 <= k <= Directions
  {
    if IsPrefix(path, q) && |q| > |path| then DirsGain(rule, t, cur, av, q[|path|..], k) else 0
  }

  /** What direction d of walkTrie at path adds to the count at q. */
  function DirAt(rule: Rule, path: string, t: Trie, cur: int, av: seq<bool>, d: int, q: string): nat
    requires WalkOk(rule, t, cur, av) && 0 <= d < Directions
  {
    if IsPrefix(path, q) && |q| > |path| then DirGain(rule, t, cur, av, q[|path|..], d) else 0
  }

  /** What the first j letters add through a blank in direction d. */
  function BlankAt(rule: Rule, path: string, t: Trie, cur: int, av: seq<bool>, d: int, j: int, q: string): nat
    requires WalkOk(rule, t, cur, av) && 0 <= d < Directions
  {
    if IsPrefix(path, q) && |q| > |path| && 0 <= Index(q[|path|]) < j then DirGain(rule, t, cur, av, q[|path|..], d) else 0
  }

  /** What the walk from child j of t, entered at cell m, adds to the count
      at q. */
  function ChildAt(rule: Rule, path: string, t: Trie, m: int, av: seq<bool>, j: int, q: string): nat
    requires RuleOk(rule) && Valid(t) && 0 <= m < |rule.board| && |av| == |rule.board| && 0 <= j < NAlpha
  {
    if t.next[j].Some? && av[m] then Gained(rule, path + [Letter(j)], t.next[j].value, m, Use(rule, av, m), q) else 0
  }

  /** The path q extends path by the letter of slot j. */
  lemma ExtendsBy(path: string, q: string, j: int)
    requires 0 <= j < NAlpha
    ensures IsPrefix(path + [Letter(j)], q) <==> IsPrefix(path, q) && |q| > |path| && q[|path|] == Letter(j)
    ensures IsPrefix(path + [Letter(j)], q) ==> q[|path|..][1..] == q[|path| + 1..]
  {
    if IsPrefix(path, q) && |q| > |path| {
      assert q[..|path| + 1] == q[..|path|] + [q[|path|]];
    }
  }

  /** Directions whose slot is -1 add nothing. */
  lemma NoMove(rule: Rule, path: string, t: Trie, cur: int, av: seq<bool>, d: int, q: string)
    requires WalkOk(rule, t, cur, av) && 0 <= d < Directions && Moves(rule.nr, rule.nc, cur)[d] == -1
    ensures DirAt(rule, path, t, cur, av, d, q) == 0
  {
  }

  /** A letter cell m in direction d adds the walk from the child for its
      letter, in lower case. */
  lemma LetterMove(rule: Rule, path: string, t: Trie, cur: int, av: seq<bool>, d: int, m: int, q: string)
    requires WalkOk(rule, t, cur, av) && 0 <= d < Directions
    requires m == Moves(rule.nr, rule.nc, cur)[d] && 0 <= m < |rule.board| && rule.board[m] != '_'
    ensures DirAt(rule, path, t, cur, av, d, q) == ChildAt(rule, path, t, m, av, Index(ToLower(rule.board[m])), q)
  {
    var j := Index(ToLower(rule.board[m]));
    assert Letter(j) == ToLower(rule.board[m]);
    ExtendsBy(path, q, j);
  }

  /** Through a blank m in direction d, letter j adds the walk from child
      j. */
  lemma BlankMove(rule: Rule, path: string, t: Trie, cur: int, av: seq<bool>, d: int, m: int, j: int, q: string)
    requires WalkOk(rule, t, cur, av) && 0 <= d < Directions && 0 <= j < NAlpha
    requires m == Moves(rule.nr, rule.nc, cur)[d] && 0 <= m < |rule.board| && rule.board[m] == '_'
    ensures BlankAt(rule, path, t, cur, av, d, j + 1, q) == BlankAt(rule, path, t, cur, av, d, j, q) + ChildAt(rule, path, t, m, av, j, q)
  {
    ExtendsBy(path, q, j);
    if IsPrefix(path, q) && |q| > |path| {
      assert Index(q[|path|]) == j <==> q[|path|] == Letter(j);
    }
  }

  /** After all letters, a blank has added all of direction d. */
  lemma BlankDone(rule: Rule, path: string, t: Trie, cur: int, av: seq<bool>, d: int, q: string)
    requires WalkOk(rule, t, cur, av) && 0 <= d < Directions
    ensures BlankAt(rule, path, t, cur, av, d, NAlpha, q) == DirAt(rule, path, t, cur, av, d, q)
  {
  }

  /** walkTrie adds one at its own node when that ends a word, and what
      the eight directions add. */
  lemma GainedSplit(rule: Rule, path: string, t: Trie, cur: int, av: seq<bool>, q: string)
    requires WalkOk(rule, t, cur, av)
    ensures Gained(rule, path, t, cur, av, q) == (if q == path && t.term then 1 else 0) + DirsAt(rule, path, t, cur, av, Directions, q)
  {
    if IsPrefix(path, q) && |q| == |path| {
      assert q == q[..|path|];
      assert q[|path|..] == [];
    }
  }

  /** walkTrie(t, rule, cur, avlb) at the node t of the trie at path: the
      counts it returns are the given ones plus what Gained adds, and avlb
      is as it was. */
  method Walk(rule: Rule, path: string, t: Trie, cur: int, avlb: array<bool>, counts: map<string, nat>) returns (r: map<string, nat>)
    requires WalkOk(rule, t, cur, avlb[..])
    modifies avlb
    ensures avlb[..] == old(avlb[..])
    ensures forall q :: Get(r, q) == Get(counts, q) + Gained(rule, path, t, cur, old(avlb[..]), q)
    decreases t, 2
  {
    ghost var av := avlb[..];
    r := counts;
    if t.term {
      r := r[path := Get(r, path) + 1];
    }
    ghost var r0 := r;
    var moves := new int[Directions];
    ValidMoves(moves, rule, cur);
    for i := 0 to Directions
      invariant avlb[..] == av
      invariant moves[..] == Moves(rule.nr, rule.nc, cur)
      invariant forall q :: Get(r, q) == Get(r0, q) + DirsAt(rule, path, t, cur, av, i, q)
    {
      r := WalkDir(rule, path, t, cur, i, moves[i], avlb, r);
    }
    forall q
      ensures Get(r, q) == Get(counts, q) + Gained(rule, path, t, cur, av, q)
    {
      GainedSplit(rule, path, t, cur, av, q);
    }
  }

  /** Direction d of walkTrie(t, rule, cur, avlb), whose slot is m. */
  method WalkDir(rule: Rule, path: string, t: Trie, cur: int, d: int, m: int, avlb: array<bool>, counts: map<string, nat>) returns (r: map<string, nat>)
    requires WalkOk(rule, t, cur, avlb[..]) && 0 <= d < Directions && m == Moves(rule.nr, rule.nc, cur)[d]
    modifies avlb
    ensures avlb[..] == old(avlb[..])
    ensures forall q :: Get(r, q) == Get(counts, q) + DirAt(rule, path, t, cur, old(avlb[..]), d, q)
    decreases t, 1
  {
    ghost var av := avlb[..];
    r := counts;
    if m == -1 {
      forall q
        ensures Get(r, q) == Get(counts, q) + DirAt(rule, path, t, cur, av, d, q)
      {
        NoMove(rule, path, t, cur, av, d, q);
      }
      return;
    }
    SlotAdjacent(rule.nr, rule.nc, cur, d);
    if rule.board[m] == '_' {
      for j := 0 to NAlpha
        invariant avlb[..] == av
        invariant forall q :: Get(r, q) == Get(counts, q) + BlankAt(rule, path, t, cur, av, d, j, q)
      {
        if t.next[j].Some? && avlb[m] {
          r := WalkChild(rule, path, t, m, j, avlb, r);
        }
        forall q
          ensures Get(r, q) == Get(counts, q) + BlankAt(rule, path, t, cur, av, d, j + 1, q)
        {
          BlankMove(rule, path, t, cur, av, d, m, j, q);
        }
      }
      forall q
        ensures Get(r, q) == Get(counts, q) + DirAt(rule, path, t, cur, av, d, q)
      {
        BlankDone(rule, path, t, cur, av, d, q);
      }
    } else {
      var next := Index(ToLower(rule.board[m]));
      if t.next[next].Some? && avlb[m] {
        r := WalkChild(rule, path, t, m, next, avlb, r);
      }
      forall q
        ensures Get(r, q) == Get(counts, q) + DirAt(rule, path, t, cur, av, d, q)
      {
        LetterMove(rule, path, t, cur, av, d, m, q);
      }
    }
  }

  /** The recursive call of walkTrie on child j of t at cell m, with m used
      up under -t and made usable again afterwards. */
  method WalkChild(rule: Rule, path: string, t: Trie, m: int, j: int, avlb: array<bool>, counts: map<string, nat>) returns (r: map<string, nat>)
    requires RuleOk(rule) && Valid(t) && 0 <= m < |rule.board| && avlb.Length == |rule.board|
    requires 0 <= j < NAlpha && t.next[j].Some? && avlb[m]
    modifies avlb
    ensures avlb[..] == old(avlb[..])
    ensures forall q :: Get(r, q) == Get(counts, q) + ChildAt(rule, path, t, m, old(avlb[..]), j, q)
    decreases t, 0
  {
    ghost var av := avlb[..];
    if rule.t {
      avlb[m] := false;
    }
    assert avlb[..] == Use(rule, av, m);
    r := Walk(rule, path + [Letter(j)], t.next[j].value, m, avlb, counts);
    avlb[m] := true;
    assert avlb[..] == av;
  }

  // ---------------------------------------------------------------------
  // The search from every cell

  /** n usable cells. */
  function AllTrue(n: nat): (r: seq<bool>)
    ensures |r| == n
  {
    if n == 0 then [] else AllTrue(n - 1) + [true]
  }

  lemma AllTrueHolds(n: nat, k: int)
    requires 0 <= k < n
    ensures AllTrue(n)[k]
  {
    if k < n - 1 {
      AllTrueHolds(n - 1, k);
    }
  }

  /** The usable cells of a walk started at cell i: all of them, but i itself
      under -t. */
  function Start(rule: Rule, i: int): (r: seq<bool>)
    requires 0 <= i < |rule.board|
    ensures |r| == |rule.board|
  {
    Use(rule, AllTrue(|rule.board|), i)
  }

  /** What the walk started at cell i from the child for the first letter of
      q adds to the count at q, when cell i may stand for that letter. */
  function StartGain(rule: Rule, root: Trie, i: int, q: string): nat
    requires RuleOk(rule) && Valid(root) && 0 <= i < |rule.board|
  {
    if q == [] || !Matches(rule.board[i], q[0]) || Child(root, q[0]).None? then 0
    else
      ChildValid(root, q[0]);
      Gain(rule, Child(root, q[0]).value, i, Start(rule, i), q[1..])
  }

  /** What the walks started at the first k cells add to the count at q. */
  function StartsGain(rule: Rule, root: Trie, k: int, q: string): nat
    requires RuleOk(rule) && Valid(root) && 0 <= k <= |rule.board|
  {
    if k == 0 then 0 else StartsGain(rule, root, k - 1, q) + StartGain(rule, root, k - 1, q)
  }

  /** The count main leaves at the node at path q: the number of walks on
      the board, from any cell, that spell q and end at a word. */
  function Occurrences(rule: Rule, root: Trie, q: string): nat
    requires RuleOk(rule) && Valid(root)
  {
    StartsGain(rule, root, |rule.board|, q)
  }

  /** What the walks started at cell i from the first j children add. */
  function StartAt(rule: Rule, root: Trie, i: int, j: int, q: string): nat
    requires RuleOk(rule) && Valid(root) && 0 <= i < |rule.board|
  {
    if q != [] && 0 <= Index(q[0]) < j then StartGain(rule, root, i, q) else 0
  }

  /** Child j of the root adds its walk from cell i exactly when main walks
      it: when the child exists and cell i is a blank or holds letter j. */
  lemma StartStep(rule: Rule, root: Trie, i: int, j: int, q: string)
    requires RuleOk(rule) && Valid(root) && 0 <= i < |rule.board| && 0 <= j < NAlpha
    ensures StartAt(rule, root, i, j + 1, q) == StartAt(rule, root, i, j, q) +
      if root.next[j].Some? && (j == Index(ToLower(rule.board[i])) || rule.board[i] == '_')
      then Gained(rule, [Letter(j)], root.next[j].value, i, Start(rule, i), q) else 0
  {
    ExtendsBy([], q, j);
    assert [] + [Letter(j)] == [Letter(j)];
    if q != [] {
      assert Index(q[0]) == j <==> q[0] == Letter(j);
      assert IsPrefix([], q);
      assert q[0..] == q;
      assert CellOk(rule.board[i]);
      assert Matches(rule.board[i], Letter(j)) <==> j == Index(ToLower(rule.board[i])) || rule.board[i] == '_';
    }
  }

  /** After all children, cell i has added all its walks. */
  lemma StartDone(rule: Rule, root: Trie, i: int, q: string)
    requires RuleOk(rule) && Valid(root) && 0 <= i < |rule.board|
    ensures StartAt(rule, root, i, NAlpha, q) == StartGain(rule, root, i, q)
  {
  }

  /** A fresh availability array with every cell usable. */
  method Available(n: nat) returns (a: array<bool>)
    ensures fresh(a) && a[..] == AllTrue(n)
  {
    a := new bool[n];
    for k := 0 to n
      invariant forall x :: 0 <= x < k ==> a[x]
    {
      a[k] := true;
    }
    forall x | 0 <= x < n
      ensures a[x] == AllTrue(n)[x]
    {
      AllTrueHolds(n, x);
    }
  }

  /** The loop of main over the cells and the children of the root: the
      counts it leaves are the occurrences of every path. */
  method CountAll(rule: Rule, root: Trie) returns (counts: map<string, nat>)
    requires RuleOk(rule) && Valid(root)
    ensures forall q :: Get(counts, q) == Occurrences(rule, root, q)
  {
    counts := map[];
    var len := rule.nr * rule.nc;
    for i := 0 to len
      invariant forall q :: Get(counts, q) == StartsGain(rule, root, i, q)
    {
      for j := 0 to NAlpha
        invariant forall q :: Get(counts, q) == StartsGain(rule, root, i, q) + StartAt(rule, root, i, j, q)
      {
        ghost var c0 := counts;
        if root.next[j].Some? && (j == Index(ToLower(rule.board[i])) || rule.board[i] == '_') {
          var avlb := Available(len);
          if rule.t {
            avlb[i] := false;
          }
          assert avlb[..] == Start(rule, i);
          counts := Walk(rule, [Letter(j)], root.next[j].value, i, avlb, counts);
        }
        forall q
          ensures Get(counts, q) == StartsGain(rule, root, i, q) + StartAt(rule, root, i, j + 1, q)
        {
          StartStep(rule, root, i, j, q);
        }
      }
      forall q
        ensures Get(counts, q) == StartsGain(rule, root, i + 1, q)
      {
        StartDone(rule, root, i, q);
      }
    }
  }

  /** The walks spelling q that start at cell i, the start included. */
  function StartWalks(rule: Rule, i: int, q: string): set<seq<int>>
    requires RuleOk(rule) && 0 <= i < |rule.board|
  {
    if q == [] || !Matches(rule.board[i], q[0]) then {}
    else Prepend(i, Walks(rule, i, Start(rule, i), q[1..]))
  }

  /** The walks spelling q that start at one of the first k cells. */
  function StartsWalks(rule: Rule, k: int, q: string): set<seq<int>>
    requires RuleOk(rule) && 0 <= k <= |rule.board|
  {
    if k == 0 then {} else StartsWalks(rule, k - 1, q) + StartWalks(rule, k - 1, q)
  }

  /** The walks from the first k cells start at one of them. */
  lemma {:induction false} StartsWalksStart(rule: Rule, k: int, q: string, w: seq<int>)
    requires RuleOk(rule) && 0 <= k <= |rule.board| && w in StartsWalks(rule, k, q)
    ensures |w| > 0 && 0 <= w[0] < k && w in StartWalks(rule, w[0], q)
  {
    if w !in StartsWalks(rule, k - 1, q) {
      var v :| v in Walks(rule, k - 1, Start(rule, k - 1), q[1..]) && w == [k - 1] + v;
    } else {
      StartsWalksStart(rule, k - 1, q, w);
    }
  }

  /** The count main leaves at q is the number of walks on the board that
      spell q, from any cell, when q ends a word, and zero otherwise. */
  lemma {:induction false} OccurrencesCount(rule: Rule, root: Trie, q: string, k: int)
    requires RuleOk(rule) && Valid(root) && 0 <= k <= |rule.board|
    ensures StartsGain(rule, root, k, q) == if q != [] && TermAt(root, q) then |StartsWalks(rule, k, q)| else 0
  {
    if k > 0 {
      var i := k - 1;
      OccurrencesCount(rule, root, q, i);
      var a, b := StartsWalks(rule, i, q), StartWalks(rule, i, q);
      forall w | w in a
        ensures w !in b
      {
        StartsWalksStart(rule, i, q, w);
      }
      assert |a + b| == |a| + |b|;
      if q != [] {
        var u := Child(root, q[0]);
        assert TermAt(root, q) <==> u.Some? && TermAt(u.value, q[1..]);
        if Matches(rule.board[i], q[0]) && u.Some? {
          ChildValid(root, q[0]);
          GainCountsWalks(rule, u.value, i, Start(rule, i), q[1..]);
          PrependSize(i, Walks(rule, i, Start(rule, i), q[1..]));
        }
      }
    }
  }

  /** The walks main counts for q: sequences of cells whose first cell may
      stand for the first letter of q and whose rest is a walk from it
      spelling the rest of q. */
  lemma AllWalksAreWalks(rule: Rule, q: string, w: seq<int>)
    requires RuleOk(rule)
    ensures w in StartsWalks(rule, |rule.board|, q) <==>
      && q != [] && |w| > 0 && 0 <= w[0] < |rule.board| && Matches(rule.board[w[0]], q[0])
      && IsWalk(rule, w[0], Start(rule, w[0]), q[1..], w[1..])
  {
    if w in StartsWalks(rule, |rule.board|, q) {
      StartsWalksStart(rule, |rule.board|, q, w);
      var v :| v in Walks(rule, w[0], Start(rule, w[0]), q[1..]) && w == [w[0]] + v;
      assert w[1..] == v;
      WalksAreWalks(rule, w[0], Start(rule, w[0]), q[1..], v);
    } else if q != [] && |w| > 0 && 0 <= w[0] < |rule.board| && Matches(rule.board[w[0]], q[0]) {
      WalksAreWalks(rule, w[0], Start(rule, w[0]), q[1..], w[1..]);
      if IsWalk(rule, w[0], Start(rule, w[0]), q[1..], w[1..]) {
        assert w == [w[0]] + w[1..];
        StartsWalksHas(rule, |rule.board|, q, w);
      }
    }
  }

  lemma {:induction false} StartsWalksHas(rule: Rule, k: int, q: string, w: seq<int>)
    requires RuleOk(rule) && 0 <= k <= |rule.board| && |w| > 0 && 0 <= w[0] < k && w in StartWalks(rule, w[0], q)
    ensures w in StartsWalks(rule, k, q)
  {
    if w[0] < k - 1 {
      StartsWalksHas(rule, k - 1, q, w);
    }
  }

  /** A path is counted exactly when it ends a word and the board holds a
      walk spelling it from some cell that may stand for its first letter. */
  lemma OccurrencesIffWalk(rule: Rule, root: Trie, q: string)
    requires RuleOk(rule) && Valid(root)
    ensures Occurrences(rule, root, q) > 0 <==>
      q != [] && TermAt(root, q) &&
      exists i, cells :: 0 <= i < |rule.board| && Matches(rule.board[i], q[0]) && IsWalk(rule, i, Start(rule, i), q[1..], cells)
  {
    if Occurrences(rule, root, q) > 0 {
      var i, cells := OccurrenceHasWalk(rule, root, q);
      assert exists i', cells' :: 0 <= i' < |rule.board| && Matches(rule.board[i'], q[0]) && IsWalk(rule, i', Start(rule, i'), q[1..], cells');
    } else if q != [] && TermAt(root, q) && exists i, cells :: 0 <= i < |rule.board| && Matches(rule.board[i], q[0]) && IsWalk(rule, i, Start(rule, i), q[1..], cells) {
      var i, cells :| 0 <= i < |rule.board| && Matches(rule.board[i], q[0]) && IsWalk(rule, i, Start(rule, i), q[1..], cells);
      WalkIsOccurrence(rule, root, q, i, cells);
    }
  }

  /** A counted path has a walk spelling it. */
  lemma OccurrenceHasWalk(rule: Rule, root: Trie, q: string) returns (i: int, cells: seq<int>)
    requires RuleOk(rule) && Valid(root) && Occurrences(rule, root, q) > 0
    ensures q != [] && TermAt(root, q)
    ensures 0 <= i < |rule.board| && Matches(rule.board[i], q[0]) && IsWalk(rule, i, Start(rule, i), q[1..], cells)
  {
    StartsPositive(rule, root, |rule.board|, q);
    i :| 0 <= i < |rule.board| && StartGain(rule, root, i, q) > 0;
    ChildValid(root, q[0]);
    var u := Child(root, q[0]).value;
    GainIffWalk(rule, u, i, Start(rule, i), q[1..]);
    cells :| IsWalk(rule, i, Start(rule, i), q[1..], cells);
  }

  /** A walk spelling a path that ends a word makes it counted. */
  lemma WalkIsOccurrence(rule: Rule, root: Trie, q: string, i: int, cells: seq<int>)
    requires RuleOk(rule) && Valid(root) && q != [] && TermAt(root, q)
    requires 0 <= i < |rule.board| && Matches(rule.board[i], q[0]) && IsWalk(rule, i, Start(rule, i), q[1..], cells)
    ensures Occurrences(rule, root, q) > 0
  {
    ChildValid(root, q[0]);
    var u := Child(root, q[0]).value;
    assert TermAt(u, q[1..]);
    WalkHasGain(rule, u, i, Start(rule, i), q[1..], cells);
    assert StartGain(rule, root, i, q) > 0;
    StartsPositive(rule, root, |rule.board|, q);
  }

  /** The walks from the first k cells add to a count exactly when one of
      them does. */
  lemma {:induction false} StartsPositive(rule: Rule, root: Trie, k: int, q: string)
    requires RuleOk(rule) && Valid(root) && 0 <= k <= |rule.board|
    ensures StartsGain(rule, root, k, q) > 0 <==> exists i :: 0 <= i < k && StartGain(rule, root, i, q) > 0
  {
    if k > 0 {
      StartsPositive(rule, root, k - 1, q);
      if StartGain(rule, root, k - 1, q) > 0 {
        assert exists i :: 0 <= i < k && StartGain(rule, root, i, q) > 0;
      }
      if exists i :: 0 <= i < k && StartGain(rule, root, i, q) > 0 {
        var i :| 0 <= i < k && StartGain(rule, root, i, q) > 0;
        assert i == k - 1 || exists e :: 0 <= e < k - 1 && StartGain(rule, root, e, q) > 0;
      }
    }
  }

  // ---------------------------------------------------------------------
  // The output

  /** A line outputTrie prints: a word found with its count, or, under -c,
      a word never found. */
  datatype Line = Counted(word: string, count: nat) | Missing(word: string)

  /** The line for a word with the given count: without -c one when the
      count is positive, with -c one when it is zero. */
  function Shown(c: bool, w: string, n: nat): (r: seq<Line>)
    ensures |r| <= 1
  {
    if !c && n > 0 then [Counted(w, n)]
    else if c && n == 0 then [Missing(w)]
    else []
  }

  /** The lines outputTrie(t, c) prints for the node t at path: its own
      word first, then the children in letter order. */
  function Report(t: Trie, path: string, counts: map<string, nat>, c: bool): seq<Line>
    requires Valid(t)
    decreases t, NAlpha + 1
  {
    (if t.term then Shown(c, t.word, Get(counts, path)) else []) + Children(t, path, counts, c, NAlpha)
  }

  /** The lines of the first k children of t. */
  function Children(t: Trie, path: string, counts: map<string, nat>, c: bool, k: int): seq<Line>
    requires Valid(t) && 0 <= k <= NAlpha
    decreases t, k
  {
    if k == 0 then []
    else
      Children(t, path, counts, c, k - 1) +
      if t.next[k - 1].Some? then Report(t.next[k - 1].value, path + [Letter(k - 1)], counts, c) else []
  }

  /** outputTrie(t, c), for the node t at path: the lines it prints. */
  method OutputTrie(t: Trie, path: string, counts: map<string, nat>, c: bool) returns (lines: seq<Line>)
    requires Valid(t)
    ensures lines == Report(t, path, counts, c)
    decreases t, 2
  {
    var own := OutputWord(t, path, counts, c);
    var below := OutputChildren(t, path, counts, c);
    lines := own + below;
  }

  /** The loop of outputTrie over the children of t, in letter order. */
  method OutputChildren(t: Trie, path: string, counts: map<string, nat>, c: bool) returns (lines: seq<Line>)
    requires Valid(t)
    ensures lines == Children(t, path, counts, c, NAlpha)
    decreases t, 1
  {
    lines := [];
    for i := 0 to NAlpha
      invariant lines == Children(t, path, counts, c, i)
    {
      var more := OutputChild(t, path, counts, c, i);
      lines := lines + more;
    }
  }

  /** The line outputTrie prints for t itself, when t ends a word. */
  method OutputWord(t: Trie, path: string, counts: map<string, nat>, c: bool) returns (lines: seq<Line>)
    ensures lines == if t.term then Shown(c, t.word, Get(counts, path)) else []
  {
    lines := [];
    if t.term {
      var n := Get(counts, path);
      if !c && n > 0 {
        lines := [Counted(t.word, n)];
      } else if c && n == 0 {
        lines := [Missing(t.word)];
      }
    }
  }

  /** The call of outputTrie on child i of t, when there is one. */
  method OutputChild(t: Trie, path: string, counts: map<string, nat>, c: bool, i: int) returns (more: seq<Line>)
    requires Valid(t) && 0 <= i < NAlpha
    ensures Children(t, path, counts, c, i + 1) == Children(t, path, counts, c, i) + more
    decreases t, 0
  {
    more := [];
    if t.next[i].Some? {
      more := OutputTrie(t.next[i].value, path + [Letter(i)], counts, c);
    }
  }

  /** Line l is printed for the word of the node at q below t when q ends a
      word and the count at path + q selects it. */
  ghost predicate Selected(t: Trie, path: string, counts: map<string, nat>, c: bool, q: string, l: Line) {
    TermAt(t, q) && l in Shown(c, Find(t, q).value.word, Get(counts, path + q))
  }

  /** The lines printed below t are exactly the selected ones. */
  lemma {:induction false} ReportSelects(t: Trie, path: string, counts: map<string, nat>, c: bool, l: Line)
    requires Valid(t)
    ensures l in Report(t, path, counts, c) <==> exists q :: Selected(t, path, counts, c, q, l)
    decreases t, NAlpha + 1
  {
    ChildrenSelect(t, path, counts, c, NAlpha, l);
    assert path + [] == path;
    if l in Report(t, path, counts, c) && l !in Children(t, path, counts, c, NAlpha) {
      assert Selected(t, path, counts, c, [], l);
    }
    if exists q :: Selected(t, path, counts, c, q, l) {
      var q :| Selected(t, path, counts, c, q, l);
      if q == [] {
        assert l in Report(t, path, counts, c);
      } else {
        assert Index(q[0]) < NAlpha;
      }
    }
  }

  /** The lines of the first k children are the selected ones at paths
      starting with one of the first k letters. */
  lemma {:induction false} ChildrenSelect(t: Trie, path: string, counts: map<string, nat>, c: bool, k: int, l: Line)
    requires Valid(t) && 0 <= k <= NAlpha
    ensures l in Children(t, path, counts, c, k) <==> SelectedBelow(t, path, counts, c, k, l)
    decreases t, k
  {
    if k > 0 {
      var j := k - 1;
      ChildrenSelect(t, path, counts, c, j, l);
      var back := if t.next[j].Some? then Report(t.next[j].value, path + [Letter(j)], counts, c) else [];
      assert Children(t, path, counts, c, k) == Children(t, path, counts, c, j) + back;
      if t.next[j].Some? {
        ReportSelects(t.next[j].value, path + [Letter(j)], counts, c, l);
      }
      SelectedAtChild(t, path, counts, c, j, l);
      SelectedBelowSplit(t, path, counts, c, k, l);
    }
  }

  /** Line l is selected at a path starting with one of the first k
      letters. */
  ghost predicate SelectedBelow(t: Trie, path: string, counts: map<string, nat>, c: bool, k: int, l: Line) {
    exists q :: q != [] && 0 <= Index(q[0]) < k && Selected(t, path, counts, c, q, l)
  }

  /** Line l is selected at a path starting with letter j. */
  ghost predicate SelectedThrough(t: Trie, path: string, counts: map<string, nat>, c: bool, j: int, l: Line) {
    exists q :: q != [] && Index(q[0]) == j && Selected(t, path, counts, c, q, l)
  }

  lemma SelectedBelowSplit(t: Trie, path: string, counts: map<string, nat>, c: bool, k: int, l: Line)
    requires k > 0
    ensures SelectedBelow(t, path, counts, c, k, l) <==>
      SelectedBelow(t, path, counts, c, k - 1, l) || SelectedThrough(t, path, counts, c, k - 1, l)
  {
    if SelectedBelow(t, path, counts, c, k, l) {
      var q :| q != [] && 0 <= Index(q[0]) < k && Selected(t, path, counts, c, q, l);
      assert Index(q[0]) < k - 1 || Index(q[0]) == k - 1;
    }
  }

  /** Line l is selected through child j exactly when it is selected below
      that child. */
  lemma SelectedAtChild(t: Trie, path: string, counts: map<string, nat>, c: bool, j: int, l: Line)
    requires Valid(t) && 0 <= j < NAlpha
    ensures SelectedThrough(t, path, counts, c, j, l) <==>
      t.next[j].Some? && exists r :: Selected(t.next[j].value, path + [Letter(j)], counts, c, r, l)
  {
    if SelectedThrough(t, path, counts, c, j, l) {
      var q :| q != [] && Index(q[0]) == j && Selected(t, path, counts, c, q, l);
      SelectedChild(t, path, counts, c, j, q, l);
    }
    if t.next[j].Some? && exists r :: Selected(t.next[j].value, path + [Letter(j)], counts, c, r, l) {
      var r :| Selected(t.next[j].value, path + [Letter(j)], counts, c, r, l);
      var q := [Letter(j)] + r;
      assert q[1..] == r;
      SelectedChild(t, path, counts, c, j, q, l);
    }
  }

  /** A line is selected at a path through child j of t when it is
      selected at the rest of the path below that child. */
  lemma SelectedChild(t: Trie, path: string, counts: map<string, nat>, c: bool, j: int, q: string, l: Line)
    requires Valid(t) && 0 <= j < NAlpha && q != [] && Index(q[0]) == j
    ensures Selected(t, path, counts, c, q, l) <==>
      t.next[j].Some? && Selected(t.next[j].value, path + [Letter(j)], counts, c, q[1..], l)
  {
    assert q[0] == Letter(j);
    assert path + q == path + [Letter(j)] + q[1..];
    assert Find(t, q) == if t.next[j].Some? then Find(t.next[j].value, q[1..]) else None;
  }

  /** Two strings that agree on their first n characters compare by what
      follows: the one that ends there first, or the smaller character. */
  lemma {:induction false} StrLessAfter(x: string, y: string, n: nat)
    requires n <= |x| && n <= |y| && x[..n] == y[..n]
    requires (n == |x| && n < |y|) || (n < |x| && n < |y| && x[n] < y[n])
    ensures StrLess(x, y)
    decreases n
  {
    if n > 0 {
      assert x[0] == x[..n][0] && y[0] == y[..n][0];
      assert x[1..][..n - 1] == x[..n][1..] && y[1..][..n - 1] == y[..n][1..];
      StrLessAfter(x[1..], y[1..], n - 1);
    }
  }

  /** The words are in strictly increasing strcmp order. */
  predicate Sorted(lines: seq<Line>) {
    forall i, j :: 0 <= i < j < |lines| ==> StrLess(lines[i].word, lines[j].word)
  }

  /** Two sorted runs, every word of the first before every word of the
      second, make a sorted run. */
  lemma SortedJoin(a: seq<Line>, b: seq<Line>)
    requires Sorted(a) && Sorted(b)
    requires forall x, y :: x in a && y in b ==> StrLess(x.word, y.word)
    ensures Sorted(a + b)
  {
    forall i, j | 0 <= i < j < |a + b|
      ensures StrLess((a + b)[i].word, (a + b)[j].word)
    {
      if j < |a| {
        assert (a + b)[i] == a[i] && (a + b)[j] == a[j];
      } else if i >= |a| {
        assert (a + b)[i] == b[i - |a|] && (a + b)[j] == b[j - |a|];
      } else {
        assert (a + b)[i] == a[i] && (a + b)[j] == b[j - |a|];
      }
    }
  }

  /** Every node below t at path stores path followed by its own path as
      its word. */
  ghost predicate WordsArePaths(t: Trie, path: string) {
    forall q :: TermAt(t, q) ==> Find(t, q).value.word == path + q
  }

  /** The words below child j of t are the words below t whose paths
      continue with letter j. */
  lemma ChildWords(t: Trie, path: string, j: int)
    requires Valid(t) && 0 <= j < NAlpha && t.next[j].Some? && WordsArePaths(t, path)
    ensures WordsArePaths(t.next[j].value, path + [Letter(j)])
  {
    var u := t.next[j].value;
    forall r | TermAt(u, r)
      ensures Find(u, r).value.word == path + [Letter(j)] + r
    {
      var q := [Letter(j)] + r;
      assert q[1..] == r;
      assert Find(t, q) == Find(u, r);
      assert path + q == path + [Letter(j)] + r;
    }
  }

  /** When every node stores its path as its word, outputTrie prints the
      words in strictly increasing order, each one path followed by
      something. */
  lemma {:induction false} ReportSorted(t: Trie, path: string, counts: map<string, nat>, c: bool)
    requires Valid(t) && WordsArePaths(t, path)
    ensures Sorted(Report(t, path, counts, c))
    ensures forall l :: l in Report(t, path, counts, c) ==> IsPrefix(path, l.word)
    decreases t, NAlpha + 1
  {
    ChildrenSorted(t, path, counts, c, NAlpha);
    assert Find(t, []) == Some(t) && path + [] == path;
    var own := if t.term then Shown(c, t.word, Get(counts, path)) else [];
    var rest := Children(t, path, counts, c, NAlpha);
    forall l | l in own
      ensures l.word == path
    {
    }
    forall l | l in rest
      ensures StrLess(path, l.word)
    {
      StrLessAfter(path, l.word, |path|);
    }
    assert Report(t, path, counts, c) == own + rest;
  }

  /** The lines of the first k children are sorted, and their words go on
      past path with one of the first k letters. */
  lemma {:induction false} ChildrenSorted(t: Trie, path: string, counts: map<string, nat>, c: bool, k: int)
    requires Valid(t) && 0 <= k <= NAlpha && WordsArePaths(t, path)
    ensures Sorted(Children(t, path, counts, c, k))
    ensures forall l :: l in Children(t, path, counts, c, k) ==>
      IsPrefix(path, l.word) && |l.word| > |path| && 0 <= Index(l.word[|path|]) < k
    decreases t, k
  {
    if k > 0 {
      var j := k - 1;
      ChildrenSorted(t, path, counts, c, j);
      var front := Children(t, path, counts, c, j);
      if t.next[j].Some? {
        var u := t.next[j].value;
        var p := path + [Letter(j)];
        ChildWords(t, path, j);
        ReportSorted(u, p, counts, c);
        var back := Report(u, p, counts, c);
        NextBlock(front, back, path, j);
        SortedJoin(front, back);
        assert Children(t, path, counts, c, k) == front + back;
      }
    }
  }

  /** The lines of child j follow those of the children before it, and
      their words go on past path with letter j. */
  lemma NextBlock(front: seq<Line>, back: seq<Line>, path: string, j: int)
    requires 0 <= j < NAlpha
    requires forall l :: l in front ==> IsPrefix(path, l.word) && |l.word| > |path| && 0 <= Index(l.word[|path|]) < j
    requires forall l :: l in back ==> IsPrefix(path + [Letter(j)], l.word)
    ensures forall l :: l in back ==> IsPrefix(path, l.word) && |l.word| > |path| && Index(l.word[|path|]) == j
    ensures forall x, y :: x in front && y in back ==> StrLess(x.word, y.word)
  {
    var p := path + [Letter(j)];
    forall l | l in back
      ensures IsPrefix(path, l.word) && |l.word| > |path| && l.word[|path|] == Letter(j)
    {
      assert l.word[..|p|] == p;
      assert l.word[..|path|] == p[..|path|];
    }
    forall x, y | x in front && y in back
      ensures StrLess(x.word, y.word)
    {
      StrLessAfter(x.word, y.word, |path|);
    }
  }

  // ---------------------------------------------------------------------
  // The program

  /** main, for the lines of the standard input and argv with the atoi value
      of each argument: the dictionary is read, the arguments parsed (their
      error message, when they are refused), every walk on the board
      counted and the lines printed. On success the lines are in strictly
      increasing order; without -c they are the dictionary words found,
      with their number of walks, and with -c the words never found. */
  method Run(lines: seq<string>, args: seq<string>, values: seq<int>) returns (out: Result<seq<Line>, string>, ghost rule: Rule)
    requires forall i :: 0 <= i < |lines| ==> lines[i] != []
    requires |values| == |args|
    ensures out.Ok? <==> ArgsOk(args, values)
    ensures out.Ok? ==> RuleOk(rule) && rule.c == (|args| == 6 || (|args| == 5 && args[1] == "-c"))
    ensures out.Ok? ==> Sorted(out.value)
    ensures out.Ok? ==> forall l :: l in out.value <==>
      exists q :: Accepted(lines, q) && l in Shown(rule.c, q, Occurrences(rule, Dictionary(lines), q))
  {
    var t := ParseInput(lines);
    var parsed := ParseArgs(args, values);
    if parsed.Err? {
      return Err(parsed.error), Rule(false, false, 0, 0, "");
    }
    var r := parsed.value;
    rule := r;
    var counts := CountAll(r, t);
    var printed := OutputTrie(t, [], counts, r.c);
    out := Ok(printed);
    DictionaryOutput(lines, counts, rule);
  }

  /** What outputTrie prints for the dictionary: its words in increasing
      order, each selected by its count. */
  lemma DictionaryOutput(lines: seq<string>, counts: map<string, nat>, rule: Rule)
    requires forall i :: 0 <= i < |lines| ==> lines[i] != []
    requires RuleOk(rule) && forall q :: Get(counts, q) == Occurrences(rule, Dictionary(lines), q)
    ensures Sorted(Report(Dictionary(lines), [], counts, rule.c))
    ensures forall l :: l in Report(Dictionary(lines), [], counts, rule.c) <==>
      exists q :: Accepted(lines, q) && l in Shown(rule.c, q, Occurrences(rule, Dictionary(lines), q))
  {
    var root := Dictionary(lines);
    forall q | TermAt(root, q)
      ensures Find(root, q).value.word == [] + q
    {
      DictionaryWords(lines, q);
      assert [] + q == q;
    }
    ReportSorted(root, [], counts, rule.c);
    forall l
      ensures l in Report(root, [], counts, rule.c) <==>
        exists q :: Accepted(lines, q) && l in Shown(rule.c, q, Occurrences(rule, root, q))
    {
      ReportSelects(root, [], counts, rule.c, l);
      if exists q :: Selected(root, [], counts, rule.c, q, l) {
        var q :| Selected(root, [], counts, rule.c, q, l);
        DictionaryWords(lines, q);
        assert [] + q == q;
        assert Accepted(lines, q) && l in Shown(rule.c, q, Occurrences(rule, root, q));
      }
      if exists q :: Accepted(lines, q) && l in Shown(rule.c, q, Occurrences(rule, root, q)) {
        var q :| Accepted(lines, q) && l in Shown(rule.c, q, Occurrences(rule, root, q));
        DictionaryWords(lines, q);
        assert [] + q == q;
        assert Selected(root, [], counts, rule.c, q, l);
      }
    }
  }
}
