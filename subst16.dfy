/** Subst16 (Subst16/Subst16.c): a line filter driven by rules FROM TO FLAGS.
    In FROM, '.' matches any character and "@." / "@@" stand for a literal
    '.' / '@'; in TO, each '^' stands for the text FROM matched. FLAGS is "-"
    followed by q (one substitution), g (rescan after the substitution), r
    (rescan from the start of the substitution), Sn / Fm (rule to go to after
    success / failure). Each input line runs through the rules, starting with
    rule 0, until the rule index leaves the list. */
module Subst16 {
  import opened Common

  // ---------------------------------------------------------------------------
  // Rules and flags

  /** The scanning mode of a rule: -q, -g or -r. */
  datatype Flag = Q | G | R

  /** A rule: FROM, TO, the scanning mode and the rule to go to after success
      (s) and after failure (f), -1 when not given. */
  datatype Rule = Rule(from: string, to: string, flag: Flag, s: int, f: int)

  /** isFlagSeq: the argument starts with '-' (the empty string starts with
      the terminating NUL). */
  predicate IsFlagSeq(flags: string): (b: bool)
    ensures b <==> "-" <= flags
    ensures flags == [] ==> !b
  {
    |flags| > 0 && flags[0] == '-'
  }

  /** initRule: mode q, no jumps. */
  function InitRule(from: string, to: string): (r: Rule)
    ensures r.from == from && r.to == to
    ensures r.flag == Q && r.s == -1 && r.f == -1
  {
    Rule(from, to, Q, -1, -1)
  }

  function FlagOf(c: char): Flag
    requires c in "qgr"
  {
    if c == 'q' then Q else if c == 'g' then G else R
  }

  /** The value of the decimal digits s starts with, read from left to right
      onto acc. */
  function DigitsValue(s: string, acc: nat): nat
  {
    if s == [] || !IsDigit(s[0]) then acc else DigitsValue(s[1..], acc * 10 + DigitValue(s[0]))
  }

  /** The number s starts with; 0 when it does not start with a digit. */
  function LeadingValue(s: string): nat {
    DigitsValue(s, 0)
  }

  /** The mode chosen by the last q, g or r of s; d when there is none. */
  function LastFlag(s: string, d: Flag): Flag
  {
    if s == [] then d else LastFlag(s[1..], if s[0] in "qgr" then FlagOf(s[0]) else d)
  }

  /** The number written right after the last occurrence of letter in s; d
      when letter does not occur. */
  function LastNumber(s: string, letter: char, d: int): int
  {
    if s == [] then d else LastNumber(s[1..], letter, if s[0] == letter then LeadingValue(s[1..]) else d)
  }

  /** rule with the settings of the flag characters t applied. */
  function Settings(rule: Rule, t: string): Rule {
    rule.(flag := LastFlag(t, rule.flag), s := LastNumber(t, 'S', rule.s), f := LastNumber(t, 'F', rule.f))
  }

  /** What parseFlagSeq makes of rule: the flag sequence after its '-'. */
  function FlagsSpec(flags: string, rule: Rule): Rule
    requires |flags| >= 1
  {
    Settings(rule, flags[1..])
  }

  lemma {:induction false} LastFlagSkip(x: string, y: string, d: Flag)
    requires forall i :: 0 <= i < |x| ==> x[i] !in "qgr"
    ensures LastFlag(x + y, d) == LastFlag(y, d)
  {
    if x != [] {
      assert (x + y)[0] == x[0] && (x + y)[1..] == x[1..] + y;
      LastFlagSkip(x[1..], y, d);
    } else {
      assert x + y == y;
    }
  }

  lemma {:induction false} LastNumberSkip(x: string, y: string, letter: char, d: int)
    requires forall i :: 0 <= i < |x| ==> x[i] != letter
    ensures LastNumber(x + y, letter, d) == LastNumber(y, letter, d)
  {
    if x != [] {
      assert (x + y)[0] == x[0] && (x + y)[1..] == x[1..] + y;
      LastNumberSkip(x[1..], y, letter, d);
    } else {
      assert x + y == y;
    }
  }

  lemma {:induction false} LastFlagThrough(x: string, y: string, d: Flag)
    ensures LastFlag(x + y, d) == LastFlag(y, LastFlag(x, d))
  {
    if x != [] {
      assert (x + y)[0] == x[0] && (x + y)[1..] == x[1..] + y;
      LastFlagThrough(x[1..], y, if x[0] in "qgr" then FlagOf(x[0]) else d);
    } else {
      assert x + y == y;
    }
  }

  lemma {:induction false} DigitsValueAppend(x: string, y: string, acc: nat)
    requires y == [] || !IsDigit(y[0])
    ensures DigitsValue(x + y, acc) == DigitsValue(x, acc)
  {
    if x != [] {
      assert (x + y)[0] == x[0] && (x + y)[1..] == x[1..] + y;
      if IsDigit(x[0]) {
        DigitsValueAppend(x[1..], y, acc * 10 + DigitValue(x[0]));
      }
    } else {
      assert x + y == y;
    }
  }

  /** Reading the flag characters x and then y, when the number after a
      letter at the end of x cannot run on into y. */
  lemma {:induction false} LastNumberThrough(x: string, y: string, letter: char, d: int)
    requires y == [] || !IsDigit(y[0])
    ensures LastNumber(x + y, letter, d) == LastNumber(y, letter, LastNumber(x, letter, d))
  {
    if x != [] {
      assert (x + y)[0] == x[0] && (x + y)[1..] == x[1..] + y;
      DigitsValueAppend(x[1..], y, 0);
      LastNumberThrough(x[1..], y, letter, if x[0] == letter then LeadingValue(x[1..]) else d);
    } else {
      assert x + y == y;
    }
  }

  /** The last q, g or r decides the mode. */
  lemma FlagLastWins(x: string, c: char, y: string, d: Flag)
    requires c in "qgr"
    requires forall i :: 0 <= i < |y| ==> y[i] !in "qgr"
    ensures LastFlag(x + [c] + y, d) == FlagOf(c)
  {
    LastFlagThrough(x + [c], y, d);
    LastFlagThrough(x, [c], d);
    LastFlagSkip(y, [], FlagOf(c));
    assert y + [] == y;
  }

  /** The last S (or F) decides, with the number that follows it; no digits
      read as 0. */
  lemma NumberLastWins(x: string, letter: char, y: string, d: int)
    requires !IsDigit(letter)
    requires forall i :: 0 <= i < |y| ==> y[i] != letter
    ensures LastNumber(x + [letter] + y, letter, d) == LeadingValue(y)
    ensures (y == [] || !IsDigit(y[0])) ==> LeadingValue(y) == 0
  {
    LastNumberThrough(x, [letter] + y, letter, d);
    assert x + [letter] + y == x + ([letter] + y);
    var e := LastNumber(x, letter, d);
    assert ([letter] + y)[0] == letter && ([letter] + y)[1..] == y;
    LastNumberSkip(y, [], letter, LeadingValue(y));
    assert y + [] == y;
  }

  /** Settings the flag sequence does not mention keep their values (those
      of initRule in parseArgs); FROM and TO are untouched. */
  lemma FlagsDefault(flags: string, rule: Rule)
    requires |flags| >= 1
    ensures FlagsSpec(flags, rule).from == rule.from && FlagsSpec(flags, rule).to == rule.to
    ensures (forall i :: 1 <= i < |flags| ==> flags[i] !in "qgr") ==> FlagsSpec(flags, rule).flag == rule.flag
    ensures (forall i :: 1 <= i < |flags| ==> flags[i] != 'S') ==> FlagsSpec(flags, rule).s == rule.s
    ensures (forall i :: 1 <= i < |flags| ==> flags[i] != 'F') ==> FlagsSpec(flags, rule).f == rule.f
  {
    var t := flags[1..];
    assert t + [] == t;
    assert forall i :: 0 <= i < |t| ==> t[i] == flags[i + 1];
    if forall i :: 1 <= i < |flags| ==> flags[i] !in "qgr" {
      LastFlagSkip(t, [], rule.flag);
    }
    if forall i :: 1 <= i < |flags| ==> flags[i] != 'S' {
      LastNumberSkip(t, [], 'S', rule.s);
    }
    if forall i :: 1 <= i < |flags| ==> flags[i] != 'F' {
      LastNumberSkip(t, [], 'F', rule.f);
    }
  }

  /** parseFlagSeq: reads the flag sequence after its '-'; S and F take the
      digits that follow them, q, g and r set the mode, anything else is
      skipped. */
  method ParseFlagSeq(flags: string, rule: Rule) returns (r: Rule)
    requires |flags| >= 1
    ensures r == FlagsSpec(flags, rule)
  {
    r := rule;
    var i := 1;
    while i < |flags|
      invariant 1 <= i <= |flags|
      invariant Settings(r, flags[i..]) == FlagsSpec(flags, rule)
    {
      var c := flags[i];
      assert flags[i..][0] == c && flags[i..][1..] == flags[i + 1..];
      if c == 'S' || c == 'F' {
        var n, j := ReadNumber(flags, i + 1);
        assert flags[i + 1..] == flags[i + 1..j] + flags[j..];
        LastFlagSkip(flags[i + 1..j], flags[j..], r.flag);
        LastNumberSkip(flags[i + 1..j], flags[j..], 'S', r.s);
        LastNumberSkip(flags[i + 1..j], flags[j..], 'F', r.f);
        if c == 'S' {
          LastNumberSkip(flags[i + 1..j], flags[j..], 'S', n);
          r := r.(s := n);
        } else {
          LastNumberSkip(flags[i + 1..j], flags[j..], 'F', n);
          r := r.(f := n);
        }
        i := j;
      } else {
        if c == 'q' {
          r := r.(flag := Q);
        } else if c == 'g' {
          r := r.(flag := G);
        } else if c == 'r' {
          r := r.(flag := R);
        }
        i := i + 1;
      }
    }
  }

  /** The digit loop of parseFlagSeq: the number at i and the index after it. */
  method ReadNumber(flags: string, i: nat) returns (n: nat, j: nat)
    requires i <= |flags|
    ensures i <= j <= |flags|
    ensures n == LeadingValue(flags[i..])
    ensures forall k :: i <= k < j ==> IsDigit(flags[k])
    ensures j == |flags| || !IsDigit(flags[j])
  {
    n, j := 0, i;
    while j < |flags| && IsDigit(flags[j])
      invariant i <= j <= |flags|
      invariant forall k :: i <= k < j ==> IsDigit(flags[k])
      invariant DigitsValue(flags[j..], n) == LeadingValue(flags[i..])
    {
      assert flags[j..][0] == flags[j] && flags[j..][1..] == flags[j + 1..];
      n := n * 10 + DigitValue(flags[j]);
      j := j + 1;
    }
  }

  // ---------------------------------------------------------------------------
  // FROM patterns

  /** One position of a FROM pattern: any character, or one literal character. */
  datatype Tok = Any | Lit(c: char)

  /** The positions a FROM pattern stands for: '.' is any character, "@@" and
      "@." a literal '@' and '.', every other character (a lone '@' included)
      itself. */
  function Tokens(p: string): seq<Tok>
  {
    if p == [] then []
    else if p[0] == '.' then [Any] + Tokens(p[1..])
    else if p[0] == '@' && |p| >= 2 && (p[1] == '@' || p[1] == '.') then [Lit(p[1])] + Tokens(p[2..])
    else [Lit(p[0])] + Tokens(p[1..])
  }

  predicate TokOk(t: Tok, c: char) {
    t.Any? || t.c == c
  }

  /** Every position the pattern and the text both have agrees. */
  predicate Matches(toks: seq<Tok>, text: string) {
    forall j :: 0 <= j < |toks| && j < |text| ==> TokOk(toks[j], text[j])
  }

  /** A pattern is never longer than its spelling, and without '@' it has
      one position per character. */
  lemma {:induction false} TokensLength(p: string)
    ensures |Tokens(p)| <= |p|
    ensures (forall i :: 0 <= i < |p| ==> p[i] != '@') ==> |Tokens(p)| == |p|
  {
    if p != [] {
      if p[0] == '@' && |p| >= 2 && (p[1] == '@' || p[1] == '.') {
        TokensLength(p[2..]);
      } else {
        TokensLength(p[1..]);
        if forall i :: 0 <= i < |p| ==> p[i] != '@' {
          assert forall i :: 0 <= i < |p[1..]| ==> p[1..][i] == p[i + 1];
        }
      }
    }
  }

  /** stringLength: the number of characters the pattern matches. */
  method StringLength(p: string) returns (n: nat)
    ensures n == |Tokens(p)|
  {
    n := 0;
    var i := 0;
    while i < |p|
      invariant 0 <= i <= |p|
      invariant n + |Tokens(p[i..])| == |Tokens(p)|
    {
      assert p[i..][0] == p[i] && p[i..][1..] == p[i + 1..];
      n := n + 1;
      if p[i] == '@' {
        if i + 1 == |p| {
          return;
        } else if p[i + 1] != '@' && p[i + 1] != '.' {
          // '@' and the character after it match two characters
          assert p[i + 1..][0] == p[i + 1] && p[i + 1..][1..] == p[i + 2..];
          n := n + 1;
          i := i + 1;
        } else {
          assert p[i..][2..] == p[i + 2..];
          i := i + 1;
        }
      }
      i := i + 1;
    }
  }

  /** stringCompare: the pattern matches text, position by position, as far
      as both go. */
  method StringCompare(p: string, text: string) returns (b: bool)
    ensures b == Matches(Tokens(p), text)
  {
    var f, s := 0, 0;
    while f < |p| && s < |text|
      invariant 0 <= f <= |p| && 0 <= s <= |text|
      invariant s <= |Tokens(p)| && Tokens(p)[s..] == Tokens(p[f..])
      invariant forall j :: 0 <= j < s ==> TokOk(Tokens(p)[j], text[j])
    {
      assert p[f..][0] == p[f] && p[f..][1..] == p[f + 1..];
      ghost var t := Tokens(p)[s];
      if p[f] == '@' {
        if f + 1 == |p| {
          assert Tokens(p[f..]) == [Lit('@')];
          b := '@' == text[s];
          assert b == TokOk(t, text[s]);
          assert |Tokens(p)| == s + 1;
          return;
        } else if p[f + 1] != '@' && p[f + 1] != '.' {
          if text[s] != '@' {
            assert !TokOk(t, text[s]);
            return false;
          }
          f := f + 1;
        } else {
          assert p[f..][2..] == p[f + 2..];
          if p[f + 1] != text[s] {
            assert !TokOk(t, text[s]);
            return false;
          }
          f := f + 2;
        }
      } else if p[f] == '.' {
        f := f + 1;
      } else {
        if p[f] != text[s] {
          assert !TokOk(t, text[s]);
          return false;
        }
        f := f + 1;
      }
      assert Tokens(p)[s + 1..] == Tokens(p)[s..][1..];
      s := s + 1;
    }
    b := true;
  }

  // ---------------------------------------------------------------------------
  // TO templates

  /** The first '^' of word at or after i, or -1. */
  function NextCaret(word: string, i: nat): (r: int)
    ensures r == -1 ==> forall k :: i <= k < |word| ==> word[k] != '^'
    ensures r != -1 ==> i <= r < |word| && word[r] == '^'
    ensures r != -1 ==> forall k :: i <= k < r ==> word[k] != '^'
    decreases |word| - i
  {
    if i >= |word| then -1 else if word[i] == '^' then i else NextCaret(word, i + 1)
  }

  /** caretIndex: the first '^' of word at or after lastStop, or -1. */
  method CaretIndex(word: string, lastStop: nat) returns (r: int)
    ensures r == NextCaret(word, lastStop)
  {
    var i := lastStop;
    while i < |word|
      invariant lastStop <= i
      invariant NextCaret(word, i) == NextCaret(word, lastStop)
    {
      if word[i] == '^' {
        return i;
      }
      i := i + 1;
    }
    r := -1;
  }

  /** TO with every '^' replaced by the matched text m. */
  function Expand(to: string, m: string): string
  {
    if to == [] then [] else (if to[0] == '^' then m else [to[0]]) + Expand(to[1..], m)
  }

  /** The number of '^' in s. */
  function Carets(s: string): nat
  {
    if s == [] then 0 else (if s[0] == '^' then 1 else 0) + Carets(s[1..])
  }

  lemma {:induction false} ExpandAppend(a: string, b: string, m: string)
    ensures Expand(a + b, m) == Expand(a, m) + Expand(b, m)
  {
    if a == [] {
      assert a + b == b;
    } else {
      assert (a + b)[0] == a[0] && (a + b)[1..] == a[1..] + b;
      ExpandAppend(a[1..], b, m);
    }
  }

  /** Text without a caret is inserted as it is. */
  lemma {:induction false} ExpandNoCaret(a: string, m: string)
    requires forall k :: 0 <= k < |a| ==> a[k] != '^'
    ensures Expand(a, m) == a
    ensures Carets(a) == 0
  {
    if a != [] {
      ExpandNoCaret(a[1..], m);
      assert a == [a[0]] + a[1..];
    }
  }

  /** Each caret gives way to the whole matched text. */
  lemma {:induction false} ExpandLength(to: string, m: string)
    ensures |Expand(to, m)| == |to| + Carets(to) * (|m| - 1)
  {
    if to != [] {
      ExpandLength(to[1..], m);
    }
  }

  /** Expanding up to and including the caret at k + j, with none in
      to[k..k + j]. */
  lemma ExpandThroughCaret(to: string, k: nat, j: nat, m: string)
    requires k + j < |to| && to[k..][j] == '^'
    requires forall i :: 0 <= i < j ==> to[k..][i] != '^'
    ensures Expand(to[..k + j + 1], m) == Expand(to[..k], m) + to[k..k + j] + m
  {
    assert to[..k + j + 1] == to[..k] + (to[k..k + j] + [to[k + j]]);
    ExpandAppend(to[..k], to[k..k + j] + [to[k + j]], m);
    ExpandAppend(to[k..k + j], [to[k + j]], m);
    ExpandNoCaret(to[k..k + j], m);
    assert [to[k + j]][1..] == [];
  }

  // ---------------------------------------------------------------------------
  // Finding and making one substitution

  /** FROM matches line at i. */
  predicate MatchAt(line: string, p: string, i: int) {
    0 <= i && i + |Tokens(p)| <= |line| && Matches(Tokens(p), line[i..i + |Tokens(p)|])
  }

  /** The match loop of parseLine from i: it only tries starts below
      |line| - L, L the pattern's length. */
  function Scan(line: string, p: string, i: nat): (r: Option<nat>)
    ensures r.Some? ==> i <= r.value && r.value + |Tokens(p)| < |line|
    decreases |line| - i
  {
    if i + |Tokens(p)| >= |line| then None
    else if MatchAt(line, p, i) then Some(i)
    else Scan(line, p, i + 1)
  }

  /** Where parseLine finds FROM in line, searching from searchStart. */
  function FirstMatch(line: string, p: string, searchStart: nat): (r: Option<nat>)
    ensures r.Some? ==> searchStart <= r.value && r.value + |Tokens(p)| < |line|
  {
    if |line| < |p| then None else Scan(line, p, searchStart)
  }

  lemma {:induction false} ScanIsFirst(line: string, p: string, i: nat)
    ensures Scan(line, p, i).Some? ==> MatchAt(line, p, Scan(line, p, i).value)
    ensures Scan(line, p, i).Some? ==> forall j :: i <= j < Scan(line, p, i).value ==> !MatchAt(line, p, j)
    ensures Scan(line, p, i).None? ==> forall j :: i <= j && j + |Tokens(p)| < |line| ==> !MatchAt(line, p, j)
    decreases |line| - i
  {
    if i + |Tokens(p)| < |line| && !MatchAt(line, p, i) {
      ScanIsFirst(line, p, i + 1);
    }
  }

  /** parseLine accepts the first match at or after searchStart that ends
      before the last character of the line, and none when the line is
      shorter than the spelling of FROM. */
  lemma FirstMatchIsFirst(line: string, p: string, searchStart: nat)
    ensures FirstMatch(line, p, searchStart).Some? ==> MatchAt(line, p, FirstMatch(line, p, searchStart).value)
    ensures FirstMatch(line, p, searchStart).Some? ==>
              forall j :: searchStart <= j < FirstMatch(line, p, searchStart).value ==> !MatchAt(line, p, j)
    ensures FirstMatch(line, p, searchStart).None? ==>
              |line| < |p| || forall j :: searchStart <= j && j + |Tokens(p)| < |line| ==> !MatchAt(line, p, j)
  {
    ScanIsFirst(line, p, searchStart);
  }

  /** The line with old[start..oldFinish] replaced by ins. */
  function Spliced(line: string, start: int, oldFinish: int, ins: string): string
    requires 0 <= start <= oldFinish <= |line|
  {
    line[..start] + ins + line[oldFinish..]
  }

  /** The match loop of parseLine (without the length check before it). */
  method SearchMatch(line: string, p: string, searchStart: nat) returns (r: Option<nat>)
    ensures r == Scan(line, p, searchStart)
  {
    var n := StringLength(p);
    var i := searchStart;
    while i < |line| - n
      invariant searchStart <= i
      invariant Scan(line, p, i) == Scan(line, p, searchStart)
      decreases |line| - i
    {
      var ok := StringCompare(p, line[i..i + n]);
      if ok {
        return Some(i);
      }
      i := i + 1;
    }
    r := None;
  }

  /** The text FROM matched at start. */
  function Matched(line: string, rule: Rule, start: int): string
    requires 0 <= start && start + |Tokens(rule.from)| <= |line|
  {
    line[start..start + |Tokens(rule.from)|]
  }

  /** The caret loop's state: TO expanded up to k, the rest as it was. */
  ghost predicate ExpandedUpTo(to: string, k: nat, m: string, ins: string)
  {
    k <= |to| && ins == Expand(to[..k], m) + to[k..]
  }

  lemma NoCaretLeft(to: string, k: nat, m: string, ins: string)
    requires ExpandedUpTo(to, k, m, ins)
    requires NextCaret(ins, |Expand(to[..k], m)|) == -1
    ensures ins == Expand(to, m)
  {
    var e := Expand(to[..k], m);
    forall i | 0 <= i < |to[k..]|
      ensures to[k..][i] != '^'
    {
      assert ins[|e| + i] == to[k..][i];
    }
    ExpandNoCaret(to[k..], m);
    ExpandAppend(to[..k], to[k..], m);
    assert to[..k] + to[k..] == to;
  }

  lemma CaretStep(to: string, k: nat, m: string, ins: string, c: int) returns (k': nat)
    requires ExpandedUpTo(to, k, m, ins)
    requires c == NextCaret(ins, |Expand(to[..k], m)|) && c != -1
    ensures k < k' && ExpandedUpTo(to, k', m, ins[..c] + m + ins[c + 1..])
    ensures c + |m| == |Expand(to[..k'], m)|
  {
    var e := Expand(to[..k], m);
    var j := CaretInRest(e, to[k..], c);
    ExpandThroughCaret(to, k, j, m);
    SliceAppend(e, to[k..], j);
    assert to[k..][..j] == to[k..k + j];
    assert to[k..][j + 1..] == to[k + j + 1..];
    k' := k + j + 1;
    assert ins[..c] + m + ins[c + 1..] == Expand(to[..k'], m) + to[k'..];
  }

  /** The caret found after the expanded part e lies in the rest t. */
  lemma CaretInRest(e: string, t: string, c: int) returns (j: nat)
    requires c == NextCaret(e + t, |e|) && c != -1
    ensures j == c - |e| && j < |t| && t[j] == '^'
    ensures forall i :: 0 <= i < j ==> t[i] != '^'
  {
    j := c - |e|;
    assert t[j] == (e + t)[c];
    forall i | 0 <= i < j
      ensures t[i] != '^'
    {
      assert t[i] == (e + t)[|e| + i];
    }
  }

  lemma SliceAppend(e: string, t: string, j: nat)
    requires j < |t|
    ensures (e + t)[..|e| + j] == e + t[..j]
    ensures (e + t)[|e| + j + 1..] == t[j + 1..]
  {
    var p, q := (e + t)[..|e| + j], (e + t)[|e| + j + 1..];
    assert forall i :: 0 <= i < |p| ==> p[i] == (e + t[..j])[i];
    assert forall i :: 0 <= i < |q| ==> q[i] == t[j + 1..][i];
  }

  /** The Replacement of Subst16.c: where the current substitution goes and
      what it inserts, plus whether this scan (modified) and any scan of the
      current rule (success) substituted. */
  class Replacement {
    var start: int
    var oldFinish: int
    var newFinish: int
    var newLength: int
    var insertion: string
    var modified: bool
    var success: bool

    constructor ()
      ensures start == 0 && oldFinish == 0 && newFinish == 0 && newLength == 0
      ensures insertion == [] && !modified && !success
    {
      start, oldFinish, newFinish, newLength := 0, 0, 0, 0;
      insertion := [];
      modified, success := false, false;
    }

    /** rewriteLine can apply this replacement to line: the part replaced
        lies inside line, newFinish is where the insertion ends, and
        newLength does not exceed the length of the result. */
    ghost predicate Fits(line: string)
      reads this
    {
      modified ==>
        0 <= start <= oldFinish <= |line| && newFinish == start + |insertion| &&
        0 <= newLength <= newFinish + (|line| - oldFinish)
    }

    /** resetReplacement */
    method Reset()
      modifies this
      ensures start == 0 && oldFinish == 0 && newFinish == 0 && modified && !success
      ensures newLength == old(newLength) && insertion == old(insertion)
    {
      start, oldFinish, newFinish := 0, 0, 0;
      modified, success := true, false;
    }

    /** updateRule: replaces the caret at caretInd of the insertion with the
        text FROM matched at start, and returns the index after it (-1 when
        there was no caret). The rewritten insertion is as long as the old
        one plus the matched text less the caret. */
    method UpdateRule(line: string, rule: Rule, caretInd: int) returns (stop: int)
      requires 0 <= start && start + |Tokens(rule.from)| <= |line|
      requires caretInd == -1 || 0 <= caretInd < |insertion|
      modifies this
      ensures start == old(start) && oldFinish == old(oldFinish) && newFinish == old(newFinish)
      ensures newLength == old(newLength) && modified == old(modified) && success == old(success)
      ensures caretInd == -1 ==> stop == -1 && insertion == old(insertion)
      ensures caretInd != -1 ==>
                insertion == old(insertion)[..caretInd] + Matched(line, rule, start) + old(insertion)[caretInd + 1..]
      ensures caretInd != -1 ==> stop == caretInd + |Tokens(rule.from)|
    {
      if caretInd == -1 {
        return -1;
      }
      var n := StringLength(rule.from);
      var rpCaret := new Replacement();
      rpCaret.start := caretInd;
      rpCaret.oldFinish := caretInd + 1;
      rpCaret.newFinish := caretInd + n;
      rpCaret.newLength := |insertion| + n - 1;
      rpCaret.insertion := line[start..start + n];
      rpCaret.modified := true;
      insertion := RewriteLine(insertion, rpCaret);
      stop := rpCaret.newFinish;
    }

    /** The caret loop of parseLine: every '^' of TO gives way to the text
        FROM matched at start. */
    method ExpandCarets(line: string, rule: Rule)
      requires 0 <= start && start + |Tokens(rule.from)| <= |line|
      requires insertion == rule.to
      modifies this
      ensures start == old(start) && oldFinish == old(oldFinish) && newFinish == old(newFinish)
      ensures newLength == old(newLength) && modified == old(modified) && success == old(success)
      ensures insertion == Expand(rule.to, Matched(line, rule, start))
    {
      ghost var m := Matched(line, rule, start);
      ghost var to := rule.to;
      ghost var k := 0;
      var lastStop := 0;
      assert to[..0] == [];
      // the do-while loop of parseLine: caretInd is -1 once no caret is left
      var caretInd := 0;
      while caretInd != -1
        invariant caretInd != -1 ==> ExpandedUpTo(to, k, m, insertion) && lastStop == |Expand(to[..k], m)|
        invariant caretInd == -1 ==> insertion == Expand(to, m)
        invariant start == old(start) && oldFinish == old(oldFinish) && newFinish == old(newFinish)
        invariant newLength == old(newLength) && modified == old(modified) && success == old(success)
        decreases if caretInd == -1 then 0 else |to| - k + 1
      {
        caretInd := CaretIndex(insertion, lastStop);
        ghost var before := insertion;
        lastStop := UpdateRule(line, rule, caretInd);
        if caretInd == -1 {
          NoCaretLeft(to, k, m, before);
        } else {
          k := CaretStep(to, k, m, before, caretInd);
        }
      }
    }

    /** parseLine: on a match of FROM at or after searchStart, records where
        it is and what replaces it, and sets modified and success; otherwise
        clears modified and leaves the rest as it was. */
    method ParseLine(line: string, searchStart: nat, rule: Rule)
      modifies this
      ensures FirstMatch(line, rule.from, searchStart).None? ==>
                !modified && success == old(success) && start == old(start) && oldFinish == old(oldFinish) &&
                newFinish == old(newFinish) && newLength == old(newLength) && insertion == old(insertion)
      ensures FirstMatch(line, rule.from, searchStart).Some? ==>
                var i := FirstMatch(line, rule.from, searchStart).value;
                var n := |Tokens(rule.from)|;
                modified && success && start == i && oldFinish == i + n &&
                insertion == Expand(rule.to, Matched(line, rule, i)) &&
                newFinish == i + |insertion| && newLength == |line| - n + |insertion|
      ensures Fits(line)
      ensures modified <==> Substitution(line, rule, searchStart).Some?
      ensures modified ==>
                0 <= start && 0 <= newFinish &&
                Substitution(line, rule, searchStart) == Some(Step(Spliced(line, start, oldFinish, insertion)[..newLength], start, newFinish))
    {
      if |line| < |rule.from| {
        modified := false;
        return;
      }
      var found := SearchMatch(line, rule.from, searchStart);
      if found.None? {
        modified := false;
        return;
      }
      var i := found.value;
      var n := StringLength(rule.from);
      start := i;
      oldFinish := i + n;
      insertion := rule.to;
      ExpandCarets(line, rule);
      newFinish := i + |insertion|;
      newLength := |line| - n + |insertion|;
      modified := true;
      success := true;
      assert Spliced(line, start, oldFinish, insertion)[..newLength] == Spliced(line, start, oldFinish, insertion);
    }
  }

  /** rewriteLine: the line with the replacement made, cut to newLength; the
      line itself when nothing was matched. */
  method RewriteLine(oldLine: string, rp: Replacement) returns (newLine: string)
    requires rp.Fits(oldLine)
    ensures !rp.modified ==> newLine == oldLine
    ensures rp.modified ==> |newLine| == rp.newLength
    ensures rp.modified ==>
              newLine == Spliced(oldLine, rp.start, rp.oldFinish, rp.insertion)[..rp.newLength]
  {
    if !rp.modified {
      return oldLine;
    }
    ghost var want := Spliced(oldLine, rp.start, rp.oldFinish, rp.insertion);
    var buf := new char[rp.newFinish + (|oldLine| - rp.oldFinish)];
    var i := 0;
    while i < rp.start
      invariant 0 <= i <= rp.start
      invariant forall k :: 0 <= k < i ==> buf[k] == want[k]
    {
      buf[i] := oldLine[i];
      i := i + 1;
    }
    i := 0;
    while i < |rp.insertion|
      invariant 0 <= i <= |rp.insertion|
      invariant forall k :: 0 <= k < rp.start + i ==> buf[k] == want[k]
    {
      buf[i + rp.start] := rp.insertion[i];
      i := i + 1;
    }
    i := rp.oldFinish;
    while i < |oldLine|
      invariant rp.oldFinish <= i <= |oldLine|
      invariant forall k :: 0 <= k < i + rp.newFinish - rp.oldFinish ==> buf[k] == want[k]
    {
      buf[i + rp.newFinish - rp.oldFinish] := oldLine[i];
      i := i + 1;
    }
    assert buf[..] == want;
    newLine := buf[..rp.newLength];
  }

  // ---------------------------------------------------------------------------
  // Applying the rules to a line

  /** One substitution: the new line, where it started and where the
      insertion ends. */
  datatype Step = Step(line: string, start: nat, newFinish: nat)

  /** parseLine followed by rewriteLine, searching from searchStart. */
  function Substitution(line: string, rule: Rule, searchStart: nat): Option<Step>
  {
    match FirstMatch(line, rule.from, searchStart)
    case None => None
    case Some(i) =>
      var ins := Expand(rule.to, Matched(line, rule, i));
      Some(Step(Spliced(line, i, i + |Tokens(rule.from)|, ins), i, i + |ins|))
  }

  /** The -g / -r loop of main, allowed fuel scans: the line and whether any
      scan substituted, or None when the loop is still going after fuel
      scans. -g resumes after the insertion, -r at its start. */
  function Rescan(line: string, rule: Rule, searchStart: nat, success: bool, fuel: nat): Option<(string, bool)>
    decreases fuel
  {
    if fuel == 0 then None
    else match Substitution(line, rule, searchStart)
      case None => Some((line, success))
      case Some(st) => Rescan(st.line, rule, if rule.flag == G then st.newFinish else st.start, true, fuel - 1)
  }

  /** One rule applied to a line, as main does it: the new line and whether
      the rule substituted anything. */
  function RuleResult(line: string, rule: Rule, fuel: nat): Option<(string, bool)>
  {
    if rule.flag == Q then
      match Substitution(line, rule, 0)
      case None => Some((line, false))
      case Some(st) => Some((st.line, true))
    else Rescan(line, rule, 0, false, fuel)
  }

  /** A rule as parseArgs can produce it: a jump is a rule index or -1. */
  predicate RuleOk(rule: Rule) {
    rule.s >= -1 && rule.f >= -1
  }

  /** The rule to apply next: s after a success and f after a failure when
      given, otherwise the following rule. */
  function NextRule(rule: Rule, index: nat, success: bool): (r: nat)
    requires RuleOk(rule)
    ensures success && rule.s != -1 ==> r == rule.s
    ensures !success && rule.f != -1 ==> r == rule.f
    ensures (if success then rule.s else rule.f) == -1 ==> r == index + 1
  {
    if success then (if rule.s == -1 then index + 1 else rule.s)
    else (if rule.f == -1 then index + 1 else rule.f)
  }

  predicate AllOk(rules: seq<Rule>) {
    forall k :: 0 <= k < |rules| ==> RuleOk(rules[k])
  }

  /** The rule loop of main on one line from rule index, allowed fuel rule
      applications (and fuel scans per -g / -r rule): the line printed, or
      None when the loop is still going. The line is done once the index
      reaches the number of rules. */
  function LineResult(line: string, rules: seq<Rule>, index: nat, fuel: nat): Option<string>
    requires AllOk(rules)
    decreases fuel
  {
    if index >= |rules| then Some(line)
    else if fuel == 0 then None
    else match RuleResult(line, rules[index], fuel)
      case None => None
      case Some(res) => LineResult(res.0, rules, NextRule(rules[index], index, res.1), fuel - 1)
  }

  /** Where -g (after the insertion) and -r (at its start) scan next. */
  function ScanFrom(rule: Rule, start: nat, newFinish: nat): nat {
    if rule.flag == G then newFinish else start
  }

  /** One turn of the -g / -r loop, in the terms of its loop invariant. */
  lemma RescanNext(line: string, rule: Rule, searchStart: nat, success: bool, fuel: nat, target: Option<(string, bool)>,
                   line': string, modified: bool, success': bool, start: nat, newFinish: nat)
    requires fuel > 0 && Rescan(line, rule, searchStart, success, fuel) == target
    requires modified <==> Substitution(line, rule, searchStart).Some?
    requires modified ==> success' && Substitution(line, rule, searchStart) == Some(Step(line', start, newFinish))
    requires !modified ==> line' == line && success' == success
    ensures modified ==> Rescan(line', rule, ScanFrom(rule, start, newFinish), success', fuel - 1) == target
    ensures !modified ==> target == Some((line', success'))
  {
  }

  /** The Q case of RuleResult. */
  lemma QuickRule(line: string, rule: Rule, fuel: nat)
    requires rule.flag == Q
    ensures Substitution(line, rule, 0).None? ==> RuleResult(line, rule, fuel) == Some((line, false))
    ensures Substitution(line, rule, 0).Some? ==>
              RuleResult(line, rule, fuel) == Some((Substitution(line, rule, 0).value.line, true))
  {
  }

  /** The branch of main's rule loop for one rule. */
  method RunRule(line: string, rule: Rule, rp: Replacement, fuel: nat) returns (r: Option<string>)
    modifies rp
    ensures RuleResult(line, rule, fuel) == if r.None? then None else Some((r.value, rp.success))
  {
    rp.Reset();
    if rule.flag == Q {
      QuickRule(line, rule, fuel);
      rp.ParseLine(line, 0, rule);
      var l := RewriteLine(line, rp);
      return Some(l);
    }
    r := RescanLoop(line, rule, rp, fuel);
  }

  /** One scan of the -g / -r loop: parseLine, then rewriteLine. */
  method ScanOnce(line: string, searchStart: nat, rule: Rule, rp: Replacement) returns (line': string)
    modifies rp
    ensures rp.modified <==> Substitution(line, rule, searchStart).Some?
    ensures rp.modified ==> rp.success && 0 <= rp.start && 0 <= rp.newFinish
    ensures rp.modified ==> Substitution(line, rule, searchStart) == Some(Step(line', rp.start, rp.newFinish))
    ensures !rp.modified ==> line' == line && rp.success == old(rp.success)
    ensures old(rp.start) >= 0 && old(rp.newFinish) >= 0 ==> rp.start >= 0 && rp.newFinish >= 0
  {
    rp.ParseLine(line, searchStart, rule);
    line' := RewriteLine(line, rp);
  }

  /** The -g / -r loop of main: scans until a scan finds nothing. */
  method RescanLoop(line: string, rule: Rule, rp: Replacement, fuel: nat) returns (r: Option<string>)
    requires rp.modified && !rp.success && rp.start == 0 && rp.newFinish == 0
    modifies rp
    ensures Rescan(line, rule, 0, false, fuel) == if r.None? then None else Some((r.value, rp.success))
  {
    ghost var target := Rescan(line, rule, 0, false, fuel);
    var cur := line;
    var k := fuel;
    while rp.modified
      invariant rp.start >= 0 && rp.newFinish >= 0
      invariant rp.modified ==> Rescan(cur, rule, ScanFrom(rule, rp.start, rp.newFinish), rp.success, k) == target
      invariant !rp.modified ==> target == Some((cur, rp.success))
      decreases k
    {
      if k == 0 {
        return None;
      }
      ghost var succ := rp.success;
      ghost var line0 := cur;
      var from := ScanFrom(rule, rp.start, rp.newFinish);
      cur := ScanOnce(cur, from, rule, rp);
      k := k - 1;
      RescanNext(line0, rule, from, succ, k + 1, target, cur, rp.modified, rp.success, rp.start, rp.newFinish);
    }
    r := Some(cur);
  }

  /** The rule loop of main for one line; rp is main's Replacement. */
  method ProcessLine(line: string, rules: seq<Rule>, rp: Replacement, fuel: nat) returns (r: Option<string>)
    requires AllOk(rules)
    modifies rp
    ensures r == LineResult(line, rules, 0, fuel)
  {
    var cur := line;
    var curRule: nat := 0;
    var steps := fuel;
    while curRule < |rules|
      invariant LineResult(cur, rules, curRule, steps) == LineResult(line, rules, 0, fuel)
      decreases steps
    {
      if steps == 0 {
        return None;
      }
      var res := RunRule(cur, rules[curRule], rp, steps);
      if res.None? {
        return None;
      }
      cur := res.value;
      curRule := NextRule(rules[curRule], curRule, rp.success);
      steps := steps - 1;
    }
    r := Some(cur);
  }

  /** Fuel only bounds the -g / -r loop: a result found with some fuel is
      found with more. */
  lemma {:induction false} RescanMoreFuel(line: string, rule: Rule, searchStart: nat, success: bool, fuel: nat)
    requires Rescan(line, rule, searchStart, success, fuel).Some?
    ensures Rescan(line, rule, searchStart, success, fuel + 1) == Rescan(line, rule, searchStart, success, fuel)
    decreases fuel
  {
    match Substitution(line, rule, searchStart)
    case None =>
    case Some(st) =>
      RescanMoreFuel(st.line, rule, if rule.flag == G then st.newFinish else st.start, true, fuel - 1);
  }

  lemma RuleResultMoreFuel(line: string, rule: Rule, fuel: nat)
    requires RuleResult(line, rule, fuel).Some?
    ensures RuleResult(line, rule, fuel + 1) == RuleResult(line, rule, fuel)
  {
    if rule.flag != Q {
      RescanMoreFuel(line, rule, 0, false, fuel);
    }
  }

  /** Fuel only bounds main's loops: a line printed with some fuel is
      printed, the same, with more. */
  lemma {:induction false} LineResultMoreFuel(line: string, rules: seq<Rule>, index: nat, fuel: nat)
    requires AllOk(rules)
    requires LineResult(line, rules, index, fuel).Some?
    ensures LineResult(line, rules, index, fuel + 1) == LineResult(line, rules, index, fuel)
    decreases fuel
  {
    if index < |rules| {
      var rule := rules[index];
      RuleResultMoreFuel(line, rule, fuel);
      var res := RuleResult(line, rule, fuel).value;
      var next := NextRule(rule, index, res.1);
      assert LineResult(line, rules, index, fuel) == LineResult(res.0, rules, next, fuel - 1);
      assert LineResult(line, rules, index, fuel + 1) == LineResult(res.0, rules, next, fuel);
      LineResultMoreFuel(res.0, rules, next, fuel - 1);
    }
  }

  /** A rule whose FROM does not occur leaves the line as it is and fails. */
  lemma NoMatchNoChange(line: string, rule: Rule, fuel: nat)
    requires FirstMatch(line, rule.from, 0).None?
    requires fuel >= 1
    ensures RuleResult(line, rule, fuel) == Some((line, false))
  {
  }

  /** Without S and F jumps (and without -g and -r), every rule runs once, in
      order, and the line is done after as many steps as rules. */
  lemma {:induction false} PlainRulesFinish(line: string, rules: seq<Rule>, index: nat, fuel: nat)
    requires forall k :: 0 <= k < |rules| ==> rules[k] == rules[k].(flag := Q, s := -1, f := -1)
    requires index + fuel >= |rules|
    ensures AllOk(rules)
    ensures LineResult(line, rules, index, fuel).Some?
    decreases fuel
  {
    if index < |rules| {
      var res := RuleResult(line, rules[index], fuel).value;
      assert NextRule(rules[index], index, res.1) == index + 1;
      PlainRulesFinish(res.0, rules, index + 1, fuel - 1);
    }
  }

  // ---------------------------------------------------------------------------
  // The command line and the run

  /** The flag argument of rule j. */
  function FlagsArg(args: seq<string>, j: nat): string
    requires 3 * j + 3 <= |args|
  {
    args[3 * j + 2]
  }

  /** Every rule's third argument is a flag sequence. */
  predicate ArgsOk(args: seq<string>) {
    forall j: nat :: j < |args| && 3 * j + 3 <= |args| ==> IsFlagSeq(FlagsArg(args, j))
  }

  lemma {:induction false} LastNumberAtLeast(t: string, letter: char, d: int)
    requires d >= -1
    ensures LastNumber(t, letter, d) >= -1
  {
    if t != [] {
      LastNumberAtLeast(t[1..], letter, if t[0] == letter then LeadingValue(t[1..]) else d);
    }
  }

  /** Rule j as parseArgs builds it: initRule, FROM, TO, then its flags. */
  function RuleAt(args: seq<string>, j: nat): (r: Rule)
    requires 3 * j + 3 <= |args| && IsFlagSeq(FlagsArg(args, j))
    ensures RuleOk(r)
  {
    LastNumberAtLeast(FlagsArg(args, j)[1..], 'S', -1);
    LastNumberAtLeast(FlagsArg(args, j)[1..], 'F', -1);
    FlagsSpec(FlagsArg(args, j), InitRule(args[3 * j], args[3 * j + 1]))
  }

  function RulesOf(args: seq<string>): (rules: seq<Rule>)
    requires |args| % 3 == 0 && ArgsOk(args)
    ensures |rules| == |args| / 3 && AllOk(rules)
  {
    seq(|args| / 3, (j: int) requires 0 <= j < |args| / 3 => RuleAt(args, j))
  }

  /** parseArgs: one rule per three arguments; None where the program exits
      with status 2 because a flag argument does not start with '-'. */
  method ParseArgs(args: seq<string>) returns (r: Option<seq<Rule>>)
    requires |args| % 3 == 0
    ensures r.Some? <==> ArgsOk(args)
    ensures r.Some? ==> r.value == RulesOf(args)
  {
    var rules: seq<Rule> := [];
    var i := 0;
    while i < |args|
      invariant i == 3 * |rules| && i <= |args|
      invariant forall j :: 0 <= j < |rules| ==> IsFlagSeq(FlagsArg(args, j)) && rules[j] == RuleAt(args, j)
    {
      var rule := InitRule(args[i], args[i + 1]);
      if !IsFlagSeq(args[i + 2]) {
        assert !IsFlagSeq(FlagsArg(args, |rules|));
        return None;
      }
      rule := ParseFlagSeq(args[i + 2], rule);
      rules := rules + [rule];
      i := i + 3;
    }
    r := Some(rules);
  }

  /** How a run ends. */
  datatype Exit =
    | Usage                    // "fail!", status 1: the arguments are not whole rules
    | BadFlags                 // status 2: a flag argument does not start with '-'
    | Done(out: seq<string>)   // every line printed, status 0
    | Stuck(out: seq<string>)  // printed so far when a line outlasts the fuel

  /** The lines printed for input, in order, until a line's rule loop
      outlasts the fuel. */
  function Filter(input: seq<string>, rules: seq<Rule>, fuel: nat): Exit
    requires AllOk(rules)
  {
    if input == [] then Done([])
    else match Filter(input[..|input| - 1], rules, fuel)
      case Done(out) =>
        (match LineResult(input[|input| - 1], rules, 0, fuel)
         case None => Stuck(out)
         case Some(line) => Done(out + [line]))
      case other => other
  }

  /** main on the arguments after the program name and the input lines. */
  function RunSpec(args: seq<string>, input: seq<string>, fuel: nat): Exit
  {
    if |args| % 3 != 0 then Usage
    else if !ArgsOk(args) then BadFlags
    else Filter(input, RulesOf(args), fuel)
  }

  lemma {:induction false} StuckStays(input: seq<string>, rules: seq<Rule>, fuel: nat, k: nat)
    requires AllOk(rules)
    requires k <= |input| && Filter(input[..k], rules, fuel).Stuck?
    ensures Filter(input, rules, fuel) == Filter(input[..k], rules, fuel)
    decreases |input| - k
  {
    if k < |input| {
      assert input[..k + 1][..k] == input[..k];
      StuckStays(input, rules, fuel, k + 1);
    } else {
      assert input[..k] == input;
    }
  }

  /** main: checks the argument count, parses the rules and filters the
      input line by line through them. */
  method Run(args: seq<string>, input: seq<string>, fuel: nat) returns (e: Exit)
    ensures e == RunSpec(args, input, fuel)
  {
    if |args| % 3 != 0 {
      return Usage;
    }
    var parsed := ParseArgs(args);
    if parsed.None? {
      return BadFlags;
    }
    var rules := parsed.value;
    var rp := new Replacement();
    var out: seq<string> := [];
    var i := 0;
    while i < |input|
      invariant 0 <= i <= |input|
      invariant Filter(input[..i], rules, fuel) == Done(out)
    {
      var r := ProcessLine(input[i], rules, rp, fuel);
      assert input[..i + 1][..i] == input[..i];
      if r.None? {
        StuckStays(input, rules, fuel, i + 1);
        return Stuck(out);
      }
      out := out + [r.value];
      i := i + 1;
    }
    assert input[..i] == input;
    e := Done(out);
  }

  // ---------------------------------------------------------------------------
  // updateRule as written

  /** The caret loop of parseLine with updateRule as written: every rewrite
      of the insertion is cut to strlen(TO) + L - 1 characters, L = |m|,
      whatever the insertion's current length. (For L = 0 and two carets the
      cut would read an unset character; that case is not modelled.) So once a
      caret is found the result has that one fixed length, however many carets
      follow, while the text before the first caret is kept. */
  function CaretsAsWritten(ins: string, lastStop: nat, to: string, m: string): (r: string)
    requires |m| >= 1 && |ins| >= |to|
    ensures NextCaret(ins, lastStop) == -1 ==> r == ins
    ensures NextCaret(ins, lastStop) != -1 ==> |r| == |to| + |m| - 1
    ensures forall i :: 0 <= i < |r| && i < |ins| && (NextCaret(ins, lastStop) == -1 || i < NextCaret(ins, lastStop)) ==> r[i] == ins[i]
    decreases if lastStop <= |ins| then |ins| - lastStop else 0
  {
    var c := NextCaret(ins, lastStop);
    if c == -1 then ins
    else
      var full := Spliced(ins, c, c + 1, m);
      CaretsAsWritten(full[..|to| + |m| - 1], c + |m|, to, m)
  }

  /** With two carets the insertion as written loses the end of the second
      copy of the matched text. */
  lemma CaretTruncation()
    ensures CaretsAsWritten("^^", 0, "^^", "ab") == "aba"
    ensures Expand("^^", "ab") == "abab"
  {
    assert NextCaret("^^", 0) == 0;
    assert Spliced("^^", 0, 1, "ab") == "ab^";
    assert "ab^"[..3] == "ab^";
    assert NextCaret("ab^", 2) == 2;
    assert Spliced("ab^", 2, 3, "ab") == "abab";
    assert "abab"[..3] == "aba";
    assert NextCaret("aba", 4) == -1;
  }

  /** The strict bound of the match loop misses a match that ends at the
      last character of the line: on a final line without its newline, and
      for a FROM whose last position is '.', which can only match the
      newline there. */
  lemma ScanMissesLineEnd()
    ensures MatchAt("xa", "a", 1) && FirstMatch("xa", "a", 0) == None
    ensures MatchAt("xa\n", "a.", 1) && FirstMatch("xa\n", "a.", 0) == None
  {
    assert Tokens("a") == [Lit('a')];
    assert Tokens("a.") == [Lit('a'), Any] by {
      assert "a."[1..] == ".";
      assert Tokens(".") == [Any] + Tokens([]);
    }
    assert "xa"[1..2] == "a" && "xa"[0..1] == "x";
    assert !TokOk(Tokens("a")[0], "xa"[0..1][0]);
    assert !MatchAt("xa", "a", 0);
    assert Scan("xa", "a", 1) == None;
    assert "xa\n"[1..3] == "a\n" && "xa\n"[0..2] == "xa";
    assert !MatchAt("xa\n", "a.", 0);
    assert Scan("xa\n", "a.", 1) == None;
  }

  // ---------------------------------------------------------------------------
  // The '@' escape of a caret

  /** TO expanded with the escape its header documents: "@^" stands for a
      literal '^', every other '^' for the matched text m. */
  function ExpandEscaped(to: string, m: string): (r: string)
    ensures Carets(to) == 0 ==> r == to
    decreases |to|
  {
    if to == [] then []
    else if to[0] == '@' && |to| >= 2 && to[1] == '^' then
      assert to[1..][0] == '^' && Carets(to[1..]) > 0;
      ['^'] + ExpandEscaped(to[2..], m)
    else
      (if to[0] == '^' then m else [to[0]]) + ExpandEscaped(to[1..], m)
  }

  /** The number of "@^" escapes in s, read left to right. */
  function Escapes(s: string): nat
    decreases |s|
  {
    if s == [] then 0
    else if s[0] == '@' && |s| >= 2 && s[1] == '^' then 1 + Escapes(s[2..])
    else Escapes(s[1..])
  }

  /** The number of '^' in s that no '@' escapes. */
  function FreeCarets(s: string): nat
    decreases |s|
  {
    if s == [] then 0
    else if s[0] == '@' && |s| >= 2 && s[1] == '^' then FreeCarets(s[2..])
    else (if s[0] == '^' then 1 else 0) + FreeCarets(s[1..])
  }

  /** Every caret of TO is either escaped or free. */
  lemma {:induction false} CaretsSplit(s: string)
    ensures Carets(s) == Escapes(s) + FreeCarets(s)
    decreases |s|
  {
    if s != [] {
      if s[0] == '@' && |s| >= 2 && s[1] == '^' {
        CaretsSplit(s[2..]);
        assert s[1..][1..] == s[2..];
      } else {
        CaretsSplit(s[1..]);
      }
    }
  }

  /** Each escape shrinks the insertion by its '@', and each free caret
      grows it by the length of the matched text less one. */
  lemma {:induction false} ExpandEscapedLength(to: string, m: string)
    ensures |ExpandEscaped(to, m)| + Escapes(to) == |to| + FreeCarets(to) * (|m| - 1)
    decreases |to|
  {
    if to != [] {
      if to[0] == '@' && |to| >= 2 && to[1] == '^' {
        ExpandEscapedLength(to[2..], m);
      } else {
        ExpandEscapedLength(to[1..], m);
        if to[0] == '^' {
          OneMore(FreeCarets(to[1..]), |m| - 1);
        }
      }
    }
  }

  lemma OneMore(f: int, k: int)
    ensures (1 + f) * k == k + f * k
  {
  }

  /** Without an escape the documented expansion is the one caretIndex and
      updateRule aim at. */
  lemma {:induction false} ExpandEscapedNoEscape(to: string, m: string)
    requires Escapes(to) == 0
    ensures ExpandEscaped(to, m) == Expand(to, m)
    decreases |to|
  {
    if to != [] {
      ExpandEscapedNoEscape(to[1..], m);
    }
  }

  /** caretIndex stops at an escaped caret too, so "@^" inserts '@' and the
      matched text where the header promises a literal '^'. */
  lemma CaretEscapeIgnored()
    ensures NextCaret("@^", 0) == 1
    ensures Expand("@^", "x") == "@x"
    ensures ExpandEscaped("@^", "x") == "^"
  {
    assert "@^"[1..] == "^";
    assert "@^"[2..] == [];
  }
}
