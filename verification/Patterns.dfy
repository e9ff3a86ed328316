/** Matching strings against patterns of one class of characters followed by another. */
module Patterns {

  /** The characters that a bracket expression without its brackets stands for: ranges and single characters. */
  predicate InClass(chars: string, c: char) {
    if chars == "" then false
    else if |chars| >= 3 && chars[1] == '-' then chars[0] <= c <= chars[2] || InClass(chars[3..], c)
    else c == chars[0] || InClass(chars[1..], c)
  }

  /** The longest prefix of characters of the class. */
  function Run(chars: string, s: string): string {
    if s != "" && InClass(chars, s[0]) then [s[0]] + Run(chars, s[1..]) else ""
  }

  /** The leftmost match of a character of `first` followed by as many of `rest` as there are; empty if there is
      none. */
  function FindString(first: string, rest: string, s: string): string {
    if s == "" then ""
    else if InClass(first, s[0]) then [s[0]] + Run(rest, s[1..])
    else FindString(first, rest, s[1..])
  }

  lemma {:induction false} RunWhole(chars: string, s: string)
    ensures Run(chars, s) == s <==> forall i | 0 <= i < |s| :: InClass(chars, s[i])
  {
    if s != "" {
      RunWhole(chars, s[1..]);
      assert s == [s[0]] + s[1..];
      assert forall i | 0 < i < |s| :: s[1..][i - 1] == s[i];
    }
  }

  lemma {:induction false} FindShorter(first: string, rest: string, s: string)
    ensures |FindString(first, rest, s)| <= |s|
  {
    if s != "" {
      RunShorter(rest, s[1..]);
      FindShorter(first, rest, s[1..]);
    }
  }

  lemma {:induction false} RunShorter(chars: string, s: string)
    ensures |Run(chars, s)| <= |s|
  {
    if s != "" { RunShorter(chars, s[1..]); }
  }

  /** The match is the whole string if its first character is of the first class and the others of the second. */
  lemma FindWhole(first: string, rest: string, s: string)
    requires s != ""
    ensures FindString(first, rest, s) == s <==>
            InClass(first, s[0]) && forall i | 0 < i < |s| :: InClass(rest, s[i])
  {
    assert s == [s[0]] + s[1..];
    if InClass(first, s[0]) {
      RunWhole(rest, s[1..]);
      assert forall i | 0 < i < |s| :: s[1..][i - 1] == s[i];
    } else {
      FindShorter(first, rest, s[1..]);
    }
  }

  lemma InRange(from: char, to: char, more: string, c: char)
    ensures InClass([from, '-', to] + more, c) <==> from <= c <= to || InClass(more, c)
  {
    assert ([from, '-', to] + more)[3..] == more;
  }

  lemma InSingle(a: char, more: string, c: char)
    requires |more| < 2
    ensures InClass([a] + more, c) <==> c == a || InClass(more, c)
  {
    assert ([a] + more)[1..] == more;
  }
}
