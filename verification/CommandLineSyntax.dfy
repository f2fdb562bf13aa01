/**
 The syntax of command-line words: switch prefixes, and the split of a switch
 into its name and value.
 */
module CommandLineSyntax {

  /** The word that ends switch parsing. */
  const SWITCH_TERMINATOR := "--"

  datatype Platform = Posix | Windows

  /** The length of the longest switch prefix: "--" or "-", and on Windows also "/". */
  function SwitchPrefixLength(os: Platform, s: string): (n: nat)
    ensures n <= |s|
  {
    if "--" <= s then 2
    else if "-" <= s then 1
    else if os == Windows && "/" <= s then 1
    else 0
  }

  predicate IsSwitch(os: Platform, s: string) {
    SwitchPrefixLength(os, s) != 0
  }

  /** The prefixes, spelled out: "--", else "-", else on Windows "/". */
  lemma PrefixIs(os: Platform, s: string)
    ensures SwitchPrefixLength(os, s)
            == if |s| >= 2 && s[0] == '-' && s[1] == '-' then 2
               else if |s| >= 1 && (s[0] == '-' || (os == Windows && s[0] == '/')) then 1
               else 0
  {
  }

  /** The position of the first `c`, or the length. */
  function Find(s: string, c: char): (n: nat)
    ensures n <= |s|
    ensures n < |s| ==> s[n] == c
    ensures forall i :: 0 <= i < n ==> s[i] != c
  {
    if s == [] || s[0] == c then 0 else 1 + Find(s[1..], c)
  }

  lemma FindIs(s: string, c: char, n: nat)
    requires n <= |s| && (n < |s| ==> s[n] == c) && forall i :: 0 <= i < n ==> s[i] != c
    ensures Find(s, c) == n
  {
  }

  /** The part of a switch before "=", with its prefix. */
  function SwitchString(s: string): string {
    s[..Find(s, '=')]
  }

  /** The part of a switch after "=", empty if there is none. */
  function SwitchValue(s: string): string {
    var n := Find(s, '=');
    if n < |s| then s[n + 1..] else []
  }

  /** The switch has a "=" with nothing after it. */
  predicate HasExplicitEmptyValue(s: string) {
    Find(s, '=') < |s| && SwitchValue(s) == []
  }

  /** A switch string and a value written as one word. */
  function Combine(name: string, value: string): string {
    if value == [] then name else name + "=" + value
  }

  /** Spelled out: the only "=" is the last character. */
  lemma ExplicitEmptyIs(s: string)
    ensures HasExplicitEmptyValue(s) <==> s != [] && s[|s| - 1] == '=' && '=' !in s[..|s| - 1]
  {
    var n := Find(s, '=');
    if s != [] && s[|s| - 1] == '=' && '=' !in s[..|s| - 1] {
      FindIs(s, '=', |s| - 1);
    }
  }

  /** Combining undoes splitting, except that an explicit empty value is forgotten. */
  lemma CombineSplit(s: string)
    ensures Combine(SwitchString(s), SwitchValue(s)) == s <==> !HasExplicitEmptyValue(s)
    ensures HasExplicitEmptyValue(s) ==> Combine(SwitchString(s), SwitchValue(s)) + "=" == s
  {
    var n := Find(s, '=');
    if n < |s| {
      assert s == s[..n] + "=" + s[n + 1..];
    }
  }

  /** Splitting undoes combining when the name has no "=". */
  lemma SplitCombine(name: string, value: string)
    requires '=' !in name
    ensures SwitchString(Combine(name, value)) == name
    ensures SwitchValue(Combine(name, value)) == value
  {
    var s := Combine(name, value);
    FindIs(s, '=', |name|);
    if value != [] {
      assert s[|name|] == '=' && s[..|name|] == name && s[|name| + 1..] == value;
    }
  }
}
