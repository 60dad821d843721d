/** The few JavaScript string operations the program relies on, over `seq<char>`:
    `startsWith`, `endsWith`, `indexOf`, `split`, `join`, `repeat`, ASCII
    `toLowerCase` and the decimal rendering of a count inside a template literal. */
module Strings {

  predicate StartsWith(s: string, prefix: string) {
    |prefix| <= |s| && s[..|prefix|] == prefix
  }

  predicate EndsWith(s: string, suffix: string) {
    |suffix| <= |s| && s[|s| - |suffix|..] == suffix
  }

  /** `s.indexOf(c)`: the first position holding `c`, or -1. */
  function IndexOf(s: string, c: char): (r: int)
    ensures -1 <= r < |s|
    ensures r == -1 <==> c !in s
    ensures 0 <= r ==> s[r] == c && c !in s[..r]
  {
    if |s| == 0 then -1
    else if s[0] == c then 0
    else
      var r := IndexOf(s[1..], c);
      assert s[1..][..if r < 0 then 0 else r] == s[1..1 + if r < 0 then 0 else r];
      if r < 0 then -1 else r + 1
  }

  /** `parts.join(sep)`. */
  function Join(parts: seq<string>, sep: string): string {
    if |parts| == 0 then ""
    else if |parts| == 1 then parts[0]
    else parts[0] + sep + Join(parts[1..], sep)
  }

  /** `s.split(sep)` for a one-character separator: the maximal pieces between
      separators, at least one piece, and the pieces joined back give `s`. */
  function Split(s: string, sep: char): (parts: seq<string>)
    ensures |parts| >= 1
    ensures forall i :: 0 <= i < |parts| ==> sep !in parts[i]
    ensures Join(parts, [sep]) == s
    decreases |s|
  {
    var i := IndexOf(s, sep);
    if i < 0 then [s]
    else
      var rest := Split(s[i + 1..], sep);
      assert s == s[..i] + [sep] + s[i + 1..];
      [s[..i]] + rest
  }

  /** The piece before the first separator: `s.split(sep)[0]`. */
  function Before(s: string, sep: char): (r: string)
    ensures sep !in r
    ensures StartsWith(s, r)
    ensures r == s || (|r| < |s| && s[|r|] == sep)
  {
    var i := IndexOf(s, sep);
    var r := Split(s, sep)[0];
    assert i < 0 ==> r == s;
    assert 0 <= i ==> r == s[..i];
    r
  }

  /** The piece before the first separator is the only separator-free
      prefix that is the whole string or stops at a separator. */
  lemma BeforeUnique(s: string, sep: char, r: string)
    requires sep !in r && StartsWith(s, r)
    requires r == s || (|r| < |s| && s[|r|] == sep)
    ensures r == Before(s, sep)
  {
    var b := Before(s, sep);
    assert r == s[..|r|] && b == s[..|b|];
  }

  /** `Before` reads one character at a time: it is empty at a leading
      separator and otherwise keeps the first character. */
  lemma BeforeCons(s: string, sep: char)
    requires |s| > 0
    ensures Before(s, sep) == if s[0] == sep then "" else [s[0]] + Before(s[1..], sep)
  {
    if s[0] == sep {
      BeforeUnique(s, sep, "");
    } else {
      var t := s[1..];
      var b := Before(t, sep);
      var r := [s[0]] + b;
      assert StartsWith(s, r) by {
        assert s[..|r|] == [s[0]] + t[..|b|];
      }
      assert r == s || (|r| < |s| && s[|r|] == sep) by {
        if b == t {
          assert s == [s[0]] + t;
        } else {
          assert s[|r|] == t[|b|];
        }
      }
      BeforeUnique(s, sep, r);
    }
  }

  /** `Before` agrees with `indexOf`: the prefix up to the first separator,
      or the whole string without one. */
  lemma BeforeIndexOf(s: string, sep: char)
    ensures var i := IndexOf(s, sep);
            Before(s, sep) == if i < 0 then s else s[..i]
  {
    var i := IndexOf(s, sep);
    if i >= 0 {
      BeforeUnique(s, sep, s[..i]);
    } else {
      BeforeUnique(s, sep, s);
    }
  }

  lemma SplitNoSeparator(s: string, sep: char)
    requires sep !in s
    ensures Split(s, sep) == [s]
  {
  }

  /** Splitting stops at the first separator and continues on the remainder. */
  lemma SplitCons(a: string, sep: char, b: string)
    requires sep !in a
    ensures Split(a + [sep] + b, sep) == [a] + Split(b, sep)
  {
    var s := a + [sep] + b;
    assert s[..|a|] == a;
    assert s[|a|] == sep;
    assert IndexOf(s, sep) == |a|;
    assert s[|a| + 1..] == b;
  }

  /** The converse round trip: joining separator-free pieces and splitting gives the pieces back. */
  lemma {:induction false} JoinSplit(parts: seq<string>, sep: char)
    requires |parts| >= 1
    requires forall i :: 0 <= i < |parts| ==> sep !in parts[i]
    ensures Split(Join(parts, [sep]), sep) == parts
    decreases |parts|
  {
    if |parts| == 1 {
      SplitNoSeparator(parts[0], sep);
    } else {
      JoinSplit(parts[1..], sep);
      SplitCons(parts[0], sep, Join(parts[1..], [sep]));
      assert parts == [parts[0]] + parts[1..];
    }
  }

  /** ASCII `toLowerCase` of one character. */
  function LowerChar(c: char): (r: char)
    ensures 'A' <= c <= 'Z' ==> 'a' <= r <= 'z'
    ensures !('A' <= c <= 'Z') ==> r == c
  {
    if 'A' <= c <= 'Z' then (c as int - 'A' as int + 'a' as int) as char else c
  }

  function Lower(s: string): (r: string)
    ensures |r| == |s|
    ensures forall i :: 0 <= i < |s| ==> r[i] == LowerChar(s[i])
  {
    if |s| == 0 then "" else [LowerChar(s[0])] + Lower(s[1..])
  }

  /** `s.repeat(n)`. */
  function Repeat(s: string, n: nat): (r: string)
    ensures |r| == |s| * n
  {
    if n == 0 then "" else s + Repeat(s, n - 1)
  }

  function Digit(d: nat): (c: char)
    requires d < 10
    ensures '0' <= c <= '9'
  {
    ('0' as int + d) as char
  }

  predicate IsDigits(s: string) {
    forall i :: 0 <= i < |s| ==> '0' <= s[i] <= '9'
  }

  /** The number a string of decimal digits denotes. */
  function DigitsValue(s: string): nat
    requires IsDigits(s)
  {
    if |s| == 0 then 0
    else DigitsValue(s[..|s| - 1]) * 10 + (s[|s| - 1] as int - '0' as int)
  }

  /** How a template literal renders a non-negative integer: its decimal
      digits, without leading zeros. */
  function NatToString(n: nat): (s: string)
    ensures |s| >= 1 && IsDigits(s)
    ensures n > 0 ==> s[0] != '0'
    ensures DigitsValue(s) == n
  {
    if n < 10 then
      [Digit(n)]
    else
      var s := NatToString(n / 10) + [Digit(n % 10)];
      assert s[..|s| - 1] == NatToString(n / 10);
      s
  }
}
