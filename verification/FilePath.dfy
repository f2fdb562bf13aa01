/**
 Pathnames as strings: stripping trailing separators, splitting into directory
 and base name, and appending a component.

 Drive letters and Windows separators are independent build settings, so every
 law here is stated for all four configurations.
 */
module FilePath {

  type Path = string

  datatype Config = Config(driveLetters: bool, winSeparators: bool)

  const POSIX := Config(false, false)

  const CURRENT_DIRECTORY: Path := "."
  const PARENT_DIRECTORY: Path := ".."

  predicate IsSeparator(cfg: Config, c: char) {
    c == '/' || (cfg.winSeparators && c == '\\')
  }

  /** Slashes separate everywhere, backslashes only with Windows separators, nothing else does. */
  lemma SeparatorsAre(cfg: Config, c: char)
    ensures IsSeparator(cfg, c) <==> c == '/' || (c == '\\' && cfg.winSeparators)
  {
  }

  /** The separator used when composing pathnames. */
  function CanonicalSeparator(cfg: Config): (c: char)
    ensures IsSeparator(cfg, c)
  {
    if cfg.winSeparators then '\\' else '/'
  }

  predicate IsLetter(c: char) {
    'A' <= c <= 'Z' || 'a' <= c <= 'z'
  }

  /** The length of the drive specification, 0 or 2: one more than the position of
      its last character, with "no position" counted as -1. */
  function DriveLength(cfg: Config, p: Path): (r: nat)
    ensures r <= |p|
  {
    if cfg.driveLetters && |p| >= 2 && p[1] == ':' && IsLetter(p[0]) then 2 else 0
  }

  /** A drive is one ASCII letter and a colon, in configurations that have drive letters. */
  lemma DriveIs(cfg: Config, p: Path)
    ensures DriveLength(cfg, p)
            == if cfg.driveLetters && |p| >= 2 && p[1] == ':' && ('a' <= p[0] <= 'z' || 'A' <= p[0] <= 'Z') then 2 else 0
  {
  }

  /** Positions lo to hi - 1 of `p` hold separators. */
  predicate SeparatorsIn(cfg: Config, p: Path, lo: nat, hi: nat)
    requires hi <= |p|
  {
    forall i :: lo <= i < hi ==> IsSeparator(cfg, p[i])
  }

  /** Positions lo to hi - 1 of `p` hold no separator. */
  predicate NoSeparatorIn(cfg: Config, p: Path, lo: nat, hi: nat)
    requires hi <= |p|
  {
    forall i :: lo <= i < hi ==> !IsSeparator(cfg, p[i])
  }

  predicate AreAllSeparators(cfg: Config, p: Path) {
    SeparatorsIn(cfg, p, 0, |p|)
  }

  predicate NoSeparators(cfg: Config, p: Path) {
    NoSeparatorIn(cfg, p, 0, |p|)
  }

  /** The position of the last separator before `end`, or -1. */
  function LastSeparatorBefore(cfg: Config, p: Path, end: nat): (i: int)
    requires end <= |p|
    ensures -1 <= i < end
    ensures i >= 0 ==> IsSeparator(cfg, p[i])
    ensures NoSeparatorIn(cfg, p, i + 1, end)
  {
    if end == 0 then -1
    else if IsSeparator(cfg, p[end - 1]) then end - 1
    else LastSeparatorBefore(cfg, p, end - 1)
  }

  /** The position of the last separator, or -1. */
  function LastSeparator(cfg: Config, p: Path): (i: int)
    ensures -1 <= i < |p|
  {
    LastSeparatorBefore(cfg, p, |p|)
  }

  lemma LastSeparatorUnique(cfg: Config, p: Path, i: int)
    requires -1 <= i < |p|
    requires i >= 0 ==> IsSeparator(cfg, p[i])
    requires NoSeparatorIn(cfg, p, i + 1, |p|)
    ensures LastSeparator(cfg, p) == i
  {
    var l := LastSeparatorBefore(cfg, p, |p|);
    assert l >= 0 ==> IsSeparator(cfg, p[l]);
  }

  // ---------------------------------------------------------------------------
  // StripTrailingSeparators
  // ---------------------------------------------------------------------------

  /** The end of the first `end` characters once trailing separators at or after `lo` are dropped. */
  function CoreEnd(cfg: Config, p: Path, lo: nat, end: nat): (e: nat)
    requires lo <= end <= |p|
    ensures lo <= e <= end
    ensures SeparatorsIn(cfg, p, e, end)
    ensures e > lo ==> !IsSeparator(cfg, p[e - 1])
  {
    if end == lo || !IsSeparator(cfg, p[end - 1]) then end else CoreEnd(cfg, p, lo, end - 1)
  }

  /** Closed form of the stripping loop.  After the drive, a name that is all
      separators keeps one of them, or both if there are exactly two; any other
      name loses every trailing separator. */
  function Strip(cfg: Config, p: Path): Path {
    var r := DriveLength(cfg, p);
    var e := CoreEnd(cfg, p, r, |p|);
    if e > r then p[..e] else if |p| <= r + 2 then p else p[..r + 1]
  }

  /** Nothing can be stripped from `p`. */
  predicate IsStripped(cfg: Config, p: Path) {
    var r := DriveLength(cfg, p);
    |p| == r || !IsSeparator(cfg, p[|p| - 1]) || (|p| <= r + 2 && SeparatorsIn(cfg, p, r, |p|))
  }

  /** The loop as written: it walks back from the end, resizing the string, and
      spares a leading pair of separators unless it has already cut a third. */
  method StripTrailingSeparatorsInternal(cfg: Config, p: Path) returns (path: Path)
    ensures path == Strip(cfg, p)
  {
    path := p;
    var start := DriveLength(cfg, path) + 1;
    var lastStripped := -1;
    var pos := |path|;
    ghost var r := DriveLength(cfg, p);
    ghost var e := CoreEnd(cfg, p, r, |p|);
    while pos > start && IsSeparator(cfg, path[pos - 1])
      invariant pos <= |path| <= |p| && path == p[..|path|]
      invariant pos >= start || pos == |p|
      invariant e <= pos || (e == r && pos == start)
      invariant if pos == start && e == r && |p| == r + 2 then path == p else |path| == pos
      invariant lastStripped == (if |path| == |p| then -1 else |path| + 1)
      decreases pos
    {
      assert path[pos - 1] == p[pos - 1] && path[start - 1] == p[start - 1];
      if pos != start + 1 || lastStripped == start + 2 || !IsSeparator(cfg, path[start - 1]) {
        path := path[..pos - 1];
        lastStripped := pos;
      }
      pos := pos - 1;
    }
  }

  lemma StripShape(cfg: Config, p: Path)
    ensures var s := Strip(cfg, p);
            && s <= p
            && DriveLength(cfg, s) == DriveLength(cfg, p)
            && IsStripped(cfg, s)
            && SeparatorsIn(cfg, p, |s|, |p|)
            && (s == [] <==> p == [])
  {
  }

  /** Stripping, spelled out.  After a drive: a name that ends in something else loses all separators behind it; one or
      two separators alone stay; three or more alone become one. */
  lemma StripExact(cfg: Config, front: Path, seps: Path)
    requires AreAllSeparators(cfg, seps) && DriveLength(cfg, front + seps) == DriveLength(cfg, front)
    requires |front| == DriveLength(cfg, front) || !IsSeparator(cfg, front[|front| - 1])
    ensures Strip(cfg, front + seps)
            == if |front| > DriveLength(cfg, front) then front
               else if |seps| <= 2 then front + seps
               else front + seps[..1]
  {
    var p, r := front + seps, DriveLength(cfg, front);
    assert forall i :: |front| <= i < |p| ==> p[i] == seps[i - |front|];
    var e := CoreEnd(cfg, p, r, |p|);
    if |front| > r {
      assert p[|front| - 1] == front[|front| - 1];
      assert e == |front|;
      assert p[..e] == front;
    } else {
      assert e == r;
      if |seps| > 2 {
        assert p[..r + 1] == front + seps[..1];
      }
    }
  }

  /** A path is its own stripped form exactly when `IsStripped`, so stripping is idempotent. */
  lemma StripFixed(cfg: Config, p: Path)
    ensures Strip(cfg, p) == p <==> IsStripped(cfg, p)
    ensures Strip(cfg, Strip(cfg, p)) == Strip(cfg, p)
  {
    StripShape(cfg, p);
    StrippedIsFixed(cfg, p);
    StrippedIsFixed(cfg, Strip(cfg, p));
  }

  lemma StrippedIsFixed(cfg: Config, p: Path)
    ensures IsStripped(cfg, p) ==> Strip(cfg, p) == p
  {
  }

  // ---------------------------------------------------------------------------
  // DirName, BaseName, Append
  // ---------------------------------------------------------------------------

  /** The stripped path cut back to its directory, before the second stripping. */
  function CutBase(cfg: Config, q: Path): Path {
    var r := DriveLength(cfg, q);
    var last := LastSeparator(cfg, q);
    if last == -1 then q[..r]
    else if last == r then q[..r + 1]
    else if last == r + 1 && IsSeparator(cfg, q[r]) then q[..r + 2]
    else if last != 0 then q[..last]
    else q
  }

  function DirName(cfg: Config, p: Path): Path {
    var dir := Strip(cfg, CutBase(cfg, Strip(cfg, p)));
    if dir == [] then CURRENT_DIRECTORY else dir
  }

  function BaseName(cfg: Config, p: Path): Path {
    var q := Strip(cfg, p);
    var rest := q[DriveLength(cfg, q)..];
    var last := LastSeparator(cfg, rest);
    if last != -1 && last < |rest| - 1 then rest[last + 1..] else rest
  }

  function Append(cfg: Config, p: Path, component: Path): Path {
    if p == CURRENT_DIRECTORY then component
    else
      var q := Strip(cfg, p);
      if component != [] && q != [] && !IsSeparator(cfg, q[|q| - 1]) && DriveLength(cfg, q) != |q|
      then q + [CanonicalSeparator(cfg)] + component
      else q + component
  }

  /** An optional drive followed by at most two separators, and not empty. */
  predicate IsRoot(cfg: Config, p: Path) {
    var r := DriveLength(cfg, p);
    p != [] && |p| <= r + 2 && SeparatorsIn(cfg, p, r, |p|)
  }

  /** A word: not empty and free of separators. */
  predicate IsWord(cfg: Config, b: Path) {
    b != [] && NoSeparators(cfg, b)
  }

  /** A word that cannot be taken for a drive and what follows it. */
  predicate IsName(cfg: Config, b: Path) {
    IsWord(cfg, b) && DriveLength(cfg, b) == 0
  }

  /** The word `b` can be appended to `d` as a component: with nothing in front of it, it must be a name. */
  predicate CanFollow(cfg: Config, d: Path, b: Path) {
    IsWord(cfg, b) && (d == [] || d == CURRENT_DIRECTORY ==> IsName(cfg, b))
  }

  lemma NameIsStripped(cfg: Config, b: Path)
    requires IsName(cfg, b)
    ensures Strip(cfg, b) == b && LastSeparator(cfg, b) == -1
    ensures BaseName(cfg, b) == b && DirName(cfg, b) == CURRENT_DIRECTORY
  {
    StripFixed(cfg, b);
    StripFixed(cfg, []);
    LastSeparatorUnique(cfg, b, -1);
  }

  /** Appending to nothing or to "." gives the name alone; otherwise the joined path is the stripped
      directory, a canonical separator unless it ends in one or is a drive, and the name. */
  lemma AppendShape(cfg: Config, d: Path, b: Path)
    requires CanFollow(cfg, d, b)
    ensures var s, j := Strip(cfg, d), Append(cfg, d, b);
            && Strip(cfg, j) == j
            && if d == [] || d == CURRENT_DIRECTORY then j == b
               else
                 && s != []
                 && j == (if IsSeparator(cfg, s[|s| - 1]) || DriveLength(cfg, s) == |s| then s + b
                          else s + [CanonicalSeparator(cfg)] + b)
                 && DriveLength(cfg, j) == DriveLength(cfg, d)
                 && BaseStart(cfg, j) == |j| - |b|
  {
    if d == [] || d == CURRENT_DIRECTORY {
      NameIsStripped(cfg, b);
      StripFixed(cfg, []);
      assert Strip(cfg, []) + b == b;
    } else {
      JoinShape(cfg, d, b);
    }
  }

  lemma JoinShape(cfg: Config, d: Path, b: Path)
    requires d != [] && d != CURRENT_DIRECTORY && IsWord(cfg, b)
    ensures var s, j := Strip(cfg, d), Append(cfg, d, b);
            && s != []
            && s <= j
            && DriveLength(cfg, j) == DriveLength(cfg, d) == DriveLength(cfg, s)
            && IsStripped(cfg, j) && Strip(cfg, j) == j
            && LastSeparator(cfg, j) == |j| - |b| - 1 - (if DriveLength(cfg, s) == |s| then |s| else 0)
            && |j| == |s| + |b| + (if IsSeparator(cfg, s[|s| - 1]) || DriveLength(cfg, s) == |s| then 0 else 1)
            && j[|j| - |b|..] == b
  {
    var s, j := Strip(cfg, d), Append(cfg, d, b);
    StripShape(cfg, d);
    assert j[|j| - 1] == b[|b| - 1];
    StripFixed(cfg, j);
    if DriveLength(cfg, s) == |s| {
      LastSeparatorUnique(cfg, j, -1);
    } else {
      LastSeparatorUnique(cfg, j, |j| - |b| - 1);
    }
  }

  /** Appending any component at all, with separators in it or empty.  Nothing or "." in front leaves it as it is.
      Otherwise it follows the stripped directory, with the canonical separator between them unless it is
      empty, or the directory ends in a separator or is a drive. */
  lemma AppendExact(cfg: Config, d: Path, b: Path)
    ensures d == [] || d == CURRENT_DIRECTORY ==> Append(cfg, d, b) == b
    ensures d != [] && d != CURRENT_DIRECTORY ==>
              var s := Strip(cfg, d);
              && s != []
              && Append(cfg, d, b) ==
                 if b == [] || IsSeparator(cfg, s[|s| - 1]) || |s| == DriveLength(cfg, s) then s + b
                 else s + [if cfg.winSeparators then '\\' else '/'] + b
  {
    StripShape(cfg, d);
    assert d == [] ==> Strip(cfg, d) + b == b;
  }

  /** Three leading separators are one root, but DirName leaves two of them. */
  lemma TripleSeparatorCorner()
    ensures DirName(POSIX, "///a") == "//"
  {
    var p := "///a";
    assert IsStripped(POSIX, p) && IsStripped(POSIX, "//");
    StripFixed(POSIX, p);
    StripFixed(POSIX, "//");
    LastSeparatorUnique(POSIX, p, 2);
    assert p[..2] == "//";
  }

  /** The directory of a name behind a root of n separators: two or three separators leave two, otherwise one is left.
      (Three make the last separator the third, and the first two are kept.) */
  lemma DirNameOfRooted(cfg: Config, drive: Path, seps: Path, word: Path)
    requires |drive| == DriveLength(cfg, drive) && AreAllSeparators(cfg, seps) && seps != [] && IsWord(cfg, word)
    ensures DriveLength(cfg, drive + seps + word) == |drive|
    ensures DirName(cfg, drive + seps + word) == drive + seps[..if |seps| == 2 || |seps| == 3 then 2 else 1]
  {
    hide Strip, LastSeparator, CutBase, DriveLength;
    var n := |seps|;
    RootedShape(cfg, drive, seps, word);
    CutOfRooted(cfg, drive, seps, word);
    var cut := seps[..if n == 1 then 1 else if n <= 3 then 2 else n - 1];
    RootedDrive(cfg, drive, cut);
    StripExact(cfg, drive, cut);
    assert n >= 4 ==> cut[..1] == seps[..1];
  }

  lemma RootedDrive(cfg: Config, drive: Path, rest: Path)
    requires |drive| == DriveLength(cfg, drive) && rest != [] && IsSeparator(cfg, rest[0])
    ensures DriveLength(cfg, drive + rest) == |drive|
  {
  }

  lemma RootedShape(cfg: Config, drive: Path, seps: Path, word: Path)
    requires |drive| == DriveLength(cfg, drive) && AreAllSeparators(cfg, seps) && seps != [] && IsWord(cfg, word)
    ensures var p := drive + seps + word;
            && DriveLength(cfg, p) == |drive| && Strip(cfg, p) == p
            && LastSeparator(cfg, p) == |drive| + |seps| - 1
  {
    hide Strip, LastSeparator, DriveLength;
    var p, r := drive + seps + word, |drive|;
    assert drive + seps + word == drive + (seps + word);
    RootedDrive(cfg, drive, seps + word);
    assert p[r + |seps| - 1] == seps[|seps| - 1];
    assert forall i :: r + |seps| <= i < |p| ==> p[i] == word[i - r - |seps|];
    LastSeparatorUnique(cfg, p, r + |seps| - 1);
    StripFixed(cfg, p);
  }

  lemma CutOfRooted(cfg: Config, drive: Path, seps: Path, word: Path)
    requires |drive| == DriveLength(cfg, drive) && AreAllSeparators(cfg, seps) && seps != [] && IsWord(cfg, word)
    ensures var n := |seps|;
            CutBase(cfg, drive + seps + word) == drive + seps[..if n == 1 then 1 else if n <= 3 then 2 else n - 1]
  {
    hide Strip, LastSeparator, DriveLength;
    RootedShape(cfg, drive, seps, word);
    var p, r, n := drive + seps + word, |drive|, |seps|;
    assert p[r] == seps[0] && IsSeparator(cfg, seps[0]);
    var cut := if n == 1 then 1 else if n <= 3 then 2 else n - 1;
    assert p[..r + cut] == drive + seps[..cut];
  }

  /** The base name of a stripped path is what follows its last separator or its drive. */
  lemma BaseNameFrom(cfg: Config, q: Path, start: nat)
    requires Strip(cfg, q) == q && DriveLength(cfg, q) <= start < |q| && NoSeparatorIn(cfg, q, start, |q|)
    requires start == DriveLength(cfg, q) || IsSeparator(cfg, q[start - 1])
    ensures BaseName(cfg, q) == q[start..]
  {
    var r := DriveLength(cfg, q);
    var rest := q[r..];
    LastSeparatorUnique(cfg, rest, start - r - 1);
  }

  /** Splitting undoes joining: the base name comes back. */
  lemma BaseNameOfAppend(cfg: Config, d: Path, b: Path)
    requires CanFollow(cfg, d, b)
    ensures BaseName(cfg, Append(cfg, d, b)) == b
  {
    if d == [] || d == CURRENT_DIRECTORY {
      AppendShape(cfg, d, b);
      NameIsStripped(cfg, b);
    } else {
      JoinShape(cfg, d, b);
      var j := Append(cfg, d, b);
      BaseNameFrom(cfg, j, |j| - |b|);
    }
  }

  /** Splitting undoes joining: the directory comes back, stripped, an empty one as ".". */
  lemma DirNameOfAppend(cfg: Config, d: Path, b: Path)
    requires CanFollow(cfg, d, b)
    ensures DirName(cfg, Append(cfg, d, b)) == if d == [] then CURRENT_DIRECTORY else Strip(cfg, d)
  {
    if d == [] || d == CURRENT_DIRECTORY {
      AppendShape(cfg, d, b);
      NameIsStripped(cfg, b);
      StripFixed(cfg, d);
    } else {
      JoinShape(cfg, d, b);
      StripShape(cfg, d);
      StripFixed(cfg, d);
      var s, j := Strip(cfg, d), Append(cfg, d, b);
      var r := DriveLength(cfg, j);
      assert CutBase(cfg, j) == j[..|s|] == s;
    }
  }

  // ---------------------------------------------------------------------------
  // Iterating DirName
  // ---------------------------------------------------------------------------

  /** Where the base name of a path starts in its stripped form. */
  function BaseStart(cfg: Config, q: Path): (i: nat)
    ensures i <= |q|
  {
    if LastSeparator(cfg, q) == -1 then DriveLength(cfg, q) else LastSeparator(cfg, q) + 1
  }

  lemma SplitBase(cfg: Config, p: Path)
    requires p != [] && !IsRoot(cfg, Strip(cfg, p))
    ensures var q, b := Strip(cfg, p), BaseName(cfg, p);
            b == q[BaseStart(cfg, q)..] && b != [] && NoSeparators(cfg, b)
  {
    hide Strip, BaseName;
    var q := Strip(cfg, p);
    StripShape(cfg, p);
    StripFixed(cfg, p);
    var last := LastSeparatorBefore(cfg, q, |q|);
    BaseNameFrom(cfg, q, BaseStart(cfg, q));
    BaseNameOfStrip(cfg, p);
  }

  /** The directory as a prefix: nothing when the path has neither drive nor separator. */
  function DirPrefix(cfg: Config, p: Path): Path {
    var q := Strip(cfg, p);
    if LastSeparator(cfg, q) == -1 && DriveLength(cfg, q) == 0 then [] else DirName(cfg, p)
  }

  lemma SplitDir(cfg: Config, p: Path)
    requires p != [] && !IsRoot(cfg, Strip(cfg, p))
    ensures var q, d := Strip(cfg, p), DirPrefix(cfg, p);
            && d <= q && |d| <= BaseStart(cfg, q) && SeparatorsIn(cfg, q, |d|, BaseStart(cfg, q))
            && (d == [] ==> DirName(cfg, p) == CURRENT_DIRECTORY)
  {
    hide Strip, CutBase, LastSeparatorBefore;
    var q := Strip(cfg, p);
    StripShape(cfg, p);
    CutBaseShape(cfg, q);
    var t := CutBase(cfg, q);
    StripShape(cfg, t);
    var d := Strip(cfg, t);
    assert forall i :: |d| <= i < |t| ==> IsSeparator(cfg, t[i]) && q[i] == t[i];
  }

  /** Joining undoes splitting, for every path that does not strip to a root: the
      stripped path is its directory, then separators only, then its base name. */
  lemma SplitReassembles(cfg: Config, p: Path)
    requires p != [] && !IsRoot(cfg, Strip(cfg, p))
    ensures var q, d, b := Strip(cfg, p), DirPrefix(cfg, p), BaseName(cfg, p);
            && |d| + |b| <= |q|
            && q == d + q[|d|..|q| - |b|] + b
            && AreAllSeparators(cfg, q[|d|..|q| - |b|])
            && b != [] && NoSeparators(cfg, b)
            && (d == [] ==> DirName(cfg, p) == CURRENT_DIRECTORY)
  {
    hide Strip, BaseName, DirPrefix, BaseStart;
    SplitBase(cfg, p);
    SplitDir(cfg, p);
  }

  lemma BaseNameOfStrip(cfg: Config, p: Path)
    ensures BaseName(cfg, Strip(cfg, p)) == BaseName(cfg, p)
  {
    hide Strip;
    StripFixed(cfg, p);
  }

  /** Cutting the base name off ends at or just after the last separator, or at the drive. */
  lemma CutBaseShape(cfg: Config, q: Path)
    ensures var t, last, r := CutBase(cfg, q), LastSeparator(cfg, q), DriveLength(cfg, q);
            && t <= q
            && (last == -1 ==> t == q[..r])
            && (last >= 0 ==> t != [] && last >= r && (|t| == last || |t| == last + 1))
  {
    assert forall i :: 0 <= i < DriveLength(cfg, q) ==> !IsSeparator(cfg, q[i]);
  }

  /** The directory of a path is "." or a stripped prefix of it. */
  lemma DirNameShape(cfg: Config, p: Path)
    ensures var d := DirName(cfg, p);
            && d != []
            && Strip(cfg, d) == d
            && (d == CURRENT_DIRECTORY || (d <= p && DriveLength(cfg, d) == DriveLength(cfg, p)))
  {
    var q := Strip(cfg, p);
    StripShape(cfg, p);
    StripShape(cfg, CutBase(cfg, q));
    StripFixed(cfg, CutBase(cfg, q));
    StripFixed(cfg, CURRENT_DIRECTORY);
    assert CutBase(cfg, q) <= q;
  }

  /** The fixpoints of DirName are exactly "." and the roots. */
  lemma DirNameFixpoints(cfg: Config, p: Path)
    ensures DirName(cfg, p) == p <==> p == CURRENT_DIRECTORY || IsRoot(cfg, p)
  {
    if p == CURRENT_DIRECTORY {
      NameIsStripped(cfg, p);
    } else if IsRoot(cfg, p) {
      RootIsFixed(cfg, p);
    } else if DirName(cfg, p) == p {
      DirNameShape(cfg, p);
      FixedIsRoot(cfg, p);
    }
  }

  lemma RootIsFixed(cfg: Config, p: Path)
    requires IsRoot(cfg, p)
    ensures DirName(cfg, p) == p
  {
    var r := DriveLength(cfg, p);
    StripFixed(cfg, p);
    if |p| > r {
      LastSeparatorUnique(cfg, p, |p| - 1);
    } else {
      LastSeparatorUnique(cfg, p, -1);
    }
  }

  lemma FixedIsRoot(cfg: Config, p: Path)
    requires p != CURRENT_DIRECTORY && DirName(cfg, p) == p && Strip(cfg, p) == p
    ensures IsRoot(cfg, p)
  {
    var t := CutBase(cfg, p);
    StripShape(cfg, t);
    assert p <= t;
  }

  /** One step either lands on a fixpoint or shortens the path. */
  lemma DirNameProgress(cfg: Config, p: Path)
    ensures var d := DirName(cfg, p); DirName(cfg, d) == d || |d| < |p|
  {
    var d := DirName(cfg, p);
    DirNameShape(cfg, p);
    DirNameFixpoints(cfg, d);
    if |d| == |p| && d != CURRENT_DIRECTORY {
      assert d == p;
    }
  }

  function IterateDirName(cfg: Config, p: Path, n: nat): Path
    decreases n
  {
    if n == 0 then p else IterateDirName(cfg, DirName(cfg, p), n - 1)
  }

  lemma {:induction false} IterateFixed(cfg: Config, p: Path, n: nat)
    requires DirName(cfg, p) == p
    ensures IterateDirName(cfg, p, n) == p
  {
    if n > 0 {
      IterateFixed(cfg, p, n - 1);
    }
  }

  /** Iterating DirName reaches "." or a root within |p| + 1 steps. */
  lemma {:induction false} IterateReachesFixpoint(cfg: Config, p: Path, n: nat)
    requires n > |p|
    ensures var f := IterateDirName(cfg, p, n); f == CURRENT_DIRECTORY || IsRoot(cfg, f)
    decreases n
  {
    hide DirName, IsRoot;
    var d := DirName(cfg, p);
    DirNameProgress(cfg, p);
    if DirName(cfg, d) == d {
      IterateFixed(cfg, d, n - 1);
      DirNameFixpoints(cfg, d);
    } else {
      IterateReachesFixpoint(cfg, d, n - 1);
    }
  }

  /** A rank that every proper DirName step lowers, although length alone is not one. */
  function DirNameRank(cfg: Config, p: Path): nat {
    if DirName(cfg, p) == p then 0 else |p| + 1
  }

  lemma DirNameRankDrops(cfg: Config, p: Path)
    requires DirName(cfg, p) != p
    ensures DirNameRank(cfg, DirName(cfg, p)) < DirNameRank(cfg, p)
  {
    DirNameProgress(cfg, p);
  }

  predicate IsParentStep(cfg: Config, p: Path, d: Path) {
    d == DirName(cfg, p) && d != p
  }

  /** Each path is the directory of the one before it, and differs from it. */
  predicate IsParentChain(cfg: Config, paths: seq<Path>) {
    forall k :: 0 < k < |paths| ==> IsParentStep(cfg, paths[k - 1], paths[k])
  }

  lemma ParentStep(cfg: Config, p: Path, d: Path)
    requires IsParentStep(cfg, p, d)
    ensures DirNameRank(cfg, p) > DirNameRank(cfg, d)
  {
    DirNameRankDrops(cfg, p);
  }

  lemma ExtendChain(cfg: Config, paths: seq<Path>, d: Path)
    requires IsParentChain(cfg, paths) && |paths| > 0 && IsParentStep(cfg, paths[|paths| - 1], d)
    ensures IsParentChain(cfg, paths + [d])
  {
    var longer := paths + [d];
    forall k | 0 < k < |longer|
      ensures IsParentStep(cfg, longer[k - 1], longer[k])
    {
      if k < |paths| {
        assert IsParentStep(cfg, paths[k - 1], paths[k]);
      }
    }
  }

  /** The ancestor chain of CreateDirectory: the path, its directory, and so on,
      each collected once, up to and including "." or a root. */
  method CollectParents(cfg: Config, fullPath: Path) returns (subpaths: seq<Path>)
    ensures 1 <= |subpaths| <= |fullPath| + 2
    ensures subpaths[0] == fullPath && IsParentChain(cfg, subpaths)
    ensures var last := subpaths[|subpaths| - 1]; last == CURRENT_DIRECTORY || IsRoot(cfg, last)
  {
    var lastPath := fullPath;
    subpaths := [fullPath];
    var path := DirName(cfg, fullPath);
    while path != lastPath
      invariant |subpaths| >= 1 && lastPath == subpaths[|subpaths| - 1] && subpaths[0] == fullPath
      invariant path == DirName(cfg, lastPath)
      invariant |subpaths| + DirNameRank(cfg, lastPath) <= |fullPath| + 2
      invariant IsParentChain(cfg, subpaths)
      decreases DirNameRank(cfg, lastPath)
    {
      ParentStep(cfg, lastPath, path);
      ExtendChain(cfg, subpaths, path);
      subpaths := subpaths + [path];
      lastPath := path;
      path := DirName(cfg, path);
    }
    DirNameFixpoints(cfg, lastPath);
  }
}
