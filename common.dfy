/** Small vocabulary shared by the programs: optional values, results with an
    error value, the C character classes of the "C" locale, and the order on
    strings that strcmp induces. */
module Common {

  datatype Option<T> = None | Some(value: T)

  datatype Result<T, E> = Ok(value: T) | Err(error: E)

  /** isdigit */
  predicate IsDigit(c: char) { '0' <= c <= '9' }

  /** islower */
  predicate IsLower(c: char) { 'a' <= c <= 'z' }

  /** isupper */
  predicate IsUpper(c: char) { 'A' <= c <= 'Z' }

  /** isalpha */
  predicate IsAlpha(c: char) { IsLower(c) || IsUpper(c) }

  /** isalnum */
  predicate IsAlnum(c: char) { IsAlpha(c) || IsDigit(c) }

  /** isspace */
  predicate IsSpace(c: char) {
    c == ' ' || c == '\t' || c == '\n' || c == '\r' || c == '\U{B}' || c == '\U{C}'
  }

  /** tolower: upper-case letters map to lower case, everything else to itself */
  function ToLower(c: char): (r: char)
    ensures IsUpper(c) ==> IsLower(r) && r as int == c as int + 32
    ensures !IsUpper(c) ==> r == c
  {
    if IsUpper(c) then (c as int + 32) as char else c
  }

  /** The value of a decimal digit character. */
  function DigitValue(c: char): (d: nat)
    requires IsDigit(c)
    ensures d < 10
  {
    c as int - '0' as int
  }

  /** strcmp(a, b) < 0: a strictly precedes b character by character, a proper
      prefix preceding the longer string (the terminating NUL is smaller than
      every character). Characters compare by code. */
  predicate StrLess(a: string, b: string)
    decreases |a|
  {
    if a == [] then b != []
    else if b == [] then false
    else if a[0] != b[0] then a[0] < b[0]
    else StrLess(a[1..], b[1..])
  }

  lemma {:induction false} StrLessIrreflexive(a: string)
    ensures !StrLess(a, a)
    decreases |a|
  {
    if a != [] {
      StrLessIrreflexive(a[1..]);
    }
  }

  lemma {:induction false} StrLessTrichotomy(a: string, b: string)
    ensures a == b || StrLess(a, b) || StrLess(b, a)
    ensures !(StrLess(a, b) && StrLess(b, a))
    decreases |a|
  {
    if a != [] && b != [] && a[0] == b[0] {
      StrLessTrichotomy(a[1..], b[1..]);
      if a[1..] == b[1..] {
        assert a == [a[0]] + a[1..] && b == [b[0]] + b[1..];
      }
    }
  }

  lemma {:induction false} StrLessTransitive(a: string, b: string, c: string)
    requires StrLess(a, b) && StrLess(b, c)
    ensures StrLess(a, c)
    decreases |a|
  {
    if a != [] && b != [] && c != [] && a[0] == b[0] && b[0] == c[0] {
      StrLessTransitive(a[1..], b[1..], c[1..]);
    }
  }

  // ---------------------------------------------------------------------
  // Sequences and their multisets

  /** Two sequences with the same elements and the same tail from n on have
      the same elements before n. */
  lemma SamePrefixMultiset<T>(s: seq<T>, t: seq<T>, n: nat)
    requires n <= |s| && n <= |t| && multiset(s) == multiset(t) && s[n..] == t[n..]
    ensures multiset(s[..n]) == multiset(t[..n])
  {
    assert s == s[..n] + s[n..] && t == t[..n] + t[n..];
    forall y
      ensures multiset(s[..n])[y] == multiset(t[..n])[y]
    {
      assert multiset(s)[y] == multiset(s[..n])[y] + multiset(s[n..])[y];
      assert multiset(t)[y] == multiset(t[..n])[y] + multiset(t[n..])[y];
    }
  }

  /** Removing the same head from two sequences with the same elements
      leaves tails with the same elements. */
  lemma SameTails<T>(a: seq<T>, b: seq<T>)
    requires a != [] && b != [] && a[0] == b[0] && multiset(a) == multiset(b)
    ensures multiset(a[1..]) == multiset(b[1..])
  {
    assert a == [a[0]] + a[1..] && b == [b[0]] + b[1..];
    forall y
      ensures multiset(a[1..])[y] == multiset(b[1..])[y]
    {
      assert multiset(a)[y] == multiset([a[0]])[y] + multiset(a[1..])[y];
      assert multiset(b)[y] == multiset([b[0]])[y] + multiset(b[1..])[y];
    }
  }
}
