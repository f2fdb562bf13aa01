/**
 Paths as lists of components: GetComponents, IsParent and AppendRelativePath.
 */
module FilePathComponents {
  import opened Common
  import opened FilePath

  // ---------------------------------------------------------------------------
  // Path equality
  // ---------------------------------------------------------------------------

  function LowerASCII(c: char): char {
    if 'A' <= c <= 'Z' then c - 'A' + 'a' else c
  }

  /** `s` starts with `prefix` when ASCII case is ignored. */
  predicate StartsWithIgnoreCase(s: Path, prefix: Path) {
    |prefix| <= |s| && forall i :: 0 <= i < |prefix| ==> LowerASCII(s[i]) == LowerASCII(prefix[i])
  }

  /** operator==: drive letters compare without regard to case. */
  predicate SamePath(cfg: Config, a: Path, b: Path) {
    var la, lb := DriveLength(cfg, a), DriveLength(cfg, b);
    if la == 0 || lb == 0 then a == b
    else StartsWithIgnoreCase(a[..la], b[..lb]) && a[la..] == b[lb..]
  }

  /** A path never differs from its directory in the case of its drive letter only. */
  lemma SameAsDirName(cfg: Config, p: Path)
    ensures SamePath(cfg, p, DirName(cfg, p)) <==> p == DirName(cfg, p)
  {
    var d := DirName(cfg, p);
    DirNameShape(cfg, p);
    if d <= p && DriveLength(cfg, d) == DriveLength(cfg, p) == 2 && p[2..] == d[2..] {
      assert |p| == |d|;
    }
  }

  // ---------------------------------------------------------------------------
  // GetComponents
  // ---------------------------------------------------------------------------

  function BaseComponent(cfg: Config, p: Path): seq<Path> {
    if AreAllSeparators(cfg, BaseName(cfg, p)) then [] else [BaseName(cfg, p)]
  }

  /** What "." or a root contributes: its drive, then its separators. */
  function RootComponents(cfg: Config, p: Path): seq<Path> {
    var r := DriveLength(cfg, p);
    var base := BaseName(cfg, p);
    (if r != 0 then [p[..r]] else []) + (if base != [] && base != CURRENT_DIRECTORY then [base] else [])
  }

  function Walk(cfg: Config, p: Path): seq<Path>
    decreases DirNameRank(cfg, p)
  {
    if DirName(cfg, p) == p then RootComponents(cfg, p)
    else
      DirNameRankDrops(cfg, p);
      Walk(cfg, DirName(cfg, p)) + BaseComponent(cfg, p)
  }

  function Components(cfg: Config, p: Path): seq<Path> {
    if p == [] then [] else Walk(cfg, p)
  }

  function Reversed(s: seq<Path>): (r: seq<Path>)
    ensures |r| == |s|
  {
    if s == [] then [] else [s[|s| - 1]] + Reversed(s[..|s| - 1])
  }

  /** The loop: push base names while DirName still moves, then the root and the drive; reverse at the end. */
  method GetComponents(cfg: Config, p: Path) returns (components: seq<Path>)
    ensures components == Components(cfg, p)
  {
    hide DirName, BaseName, SamePath, AreAllSeparators, Walk, Reversed;
    if p == [] {
      return [];
    }
    var retVal: seq<Path> := [];
    ReversedNone();
    var current := p;
    while !SamePath(cfg, current, DirName(cfg, current))
      invariant Walk(cfg, p) == Walk(cfg, current) + Reversed(retVal)
      decreases DirNameRank(cfg, current)
    {
      SameAsDirName(cfg, current);
      DirNameRankDrops(cfg, current);
      WalkStep(cfg, current);
      var base := BaseName(cfg, current);
      if !AreAllSeparators(cfg, base) {
        ReversedPush(retVal, base);
        retVal := retVal + [base];
      }
      current := DirName(cfg, current);
    }
    SameAsDirName(cfg, current);
    WalkRoot(cfg, current);
    var base := BaseName(cfg, current);
    if base != [] && base != CURRENT_DIRECTORY {
      ReversedPush(retVal, base);
      retVal := retVal + [base];
    }
    var dir := DirName(cfg, current);
    var r := DriveLength(cfg, dir);
    if r != 0 {
      ReversedPush(retVal, dir[..r]);
      retVal := retVal + [dir[..r]];
    }
    components := Reversed(retVal);
  }

  lemma WalkStep(cfg: Config, p: Path)
    requires DirName(cfg, p) != p
    ensures Walk(cfg, p) == Walk(cfg, DirName(cfg, p)) + BaseComponent(cfg, p)
  {
  }

  lemma WalkRoot(cfg: Config, p: Path)
    requires DirName(cfg, p) == p
    ensures Walk(cfg, p) == RootComponents(cfg, p)
  {
  }

  /** A path that does not strip to "." or a root has the components of its directory, then its base name. */
  lemma ComponentsSplit(cfg: Config, p: Path)
    requires p != [] && p != CURRENT_DIRECTORY && !IsRoot(cfg, Strip(cfg, p))
    ensures Components(cfg, p) == Components(cfg, DirName(cfg, p)) + [BaseName(cfg, p)]
  {
    hide Strip, DirName, BaseName, Walk, BaseStart;
    SplitBase(cfg, p);
    DirNameShape(cfg, p);
    DirNameFixpoints(cfg, p);
    assert IsRoot(cfg, p) ==> Strip(cfg, p) == p by { StripFixed(cfg, p); }
    WalkStep(cfg, p);
    assert !IsSeparator(cfg, BaseName(cfg, p)[0]);
  }

  lemma ReversedNone()
    ensures Reversed([]) == []
  {
  }

  lemma ReversedPush(s: seq<Path>, x: Path)
    ensures Reversed(s + [x]) == [x] + Reversed(s)
  {
    assert (s + [x])[..|s|] == s;
  }

  // ---------------------------------------------------------------------------
  // Components and Append
  // ---------------------------------------------------------------------------

  lemma ComponentsOfCurrentDirectory(cfg: Config)
    ensures Components(cfg, CURRENT_DIRECTORY) == []
  {
    assert IsName(cfg, CURRENT_DIRECTORY);
    NameIsStripped(cfg, CURRENT_DIRECTORY);
  }

  /** A root has its drive and its separators as components, whichever of them it has. */
  lemma ComponentsOfRoot(cfg: Config, p: Path)
    requires IsRoot(cfg, p)
    ensures var r := DriveLength(cfg, p);
            Components(cfg, p) == (if r == 0 then [] else [p[..r]]) + (if |p| == r then [] else [p[r..]])
  {
    var r := DriveLength(cfg, p);
    RootIsFixed(cfg, p);
    StripFixed(cfg, p);
    var rest := p[r..];
    if rest != [] {
      LastSeparatorUnique(cfg, rest, |rest| - 1);
      assert IsSeparator(cfg, rest[0]);
    }
  }

  /** Appending a name adds exactly one component. */
  lemma ComponentsOfAppend(cfg: Config, d: Path, b: Path)
    requires d != [] && Strip(cfg, d) == d && CanFollow(cfg, d, b)
    requires !(d == CURRENT_DIRECTORY && b == CURRENT_DIRECTORY)
    ensures Components(cfg, Append(cfg, d, b)) == Components(cfg, d) + [b]
  {
    var j := Append(cfg, d, b);
    BaseNameOfAppend(cfg, d, b);
    DirNameOfAppend(cfg, d, b);
    if d != CURRENT_DIRECTORY {
      JoinShape(cfg, d, b);
    }
    assert j != d && j != [];
    assert !IsSeparator(cfg, b[0]);
    WalkStep(cfg, j);
  }

  function FoldAppend(cfg: Config, p: Path, names: seq<Path>): Path
    decreases |names|
  {
    if names == [] then p else FoldAppend(cfg, Append(cfg, p, names[0]), names[1..])
  }

  predicate AllWords(cfg: Config, names: seq<Path>) {
    forall k :: 0 <= k < |names| ==> IsWord(cfg, names[k])
  }

  lemma {:induction false} ComponentsOfFold(cfg: Config, d: Path, names: seq<Path>)
    requires d != [] && d != CURRENT_DIRECTORY && Strip(cfg, d) == d && AllWords(cfg, names)
    ensures Components(cfg, FoldAppend(cfg, d, names)) == Components(cfg, d) + names
    decreases |names|
  {
    hide Components, Append, Strip;
    if names != [] {
      assert IsWord(cfg, names[0]);
      var j := Append(cfg, d, names[0]);
      JoinShape(cfg, d, names[0]);
      ComponentsOfAppend(cfg, d, names[0]);
      ComponentsOfFold(cfg, j, names[1..]);
      assert names == [names[0]] + names[1..];
    }
  }

  // ---------------------------------------------------------------------------
  // The shape of a component list
  // ---------------------------------------------------------------------------

  lemma BaseComponentShape(cfg: Config, p: Path)
    requires p != []
    ensures AllWords(cfg, BaseComponent(cfg, p))
  {
    hide Strip, BaseName, IsRoot, BaseStart;
    if IsRoot(cfg, Strip(cfg, p)) {
      RootHasNoBase(cfg, p);
    } else {
      SplitBase(cfg, p);
    }
  }

  lemma RootHasNoBase(cfg: Config, p: Path)
    requires IsRoot(cfg, Strip(cfg, p))
    ensures AreAllSeparators(cfg, BaseName(cfg, p))
  {
    var q := Strip(cfg, p);
    StripShape(cfg, p);
    assert AreAllSeparators(cfg, q[DriveLength(cfg, q)..]);
  }

  /** What is at the end of the walk up from p: "." or a root, with words below it. */
  lemma {:induction false} WalkShape(cfg: Config, p: Path) returns (f: Path, names: seq<Path>)
    requires p != []
    ensures f == CURRENT_DIRECTORY || IsRoot(cfg, f)
    ensures Walk(cfg, p) == RootComponents(cfg, f) + names && AllWords(cfg, names)
    decreases DirNameRank(cfg, p)
  {
    hide DirName, BaseName, IsRoot, Walk, RootComponents, BaseComponent;
    DirNameFixpoints(cfg, p);
    if DirName(cfg, p) == p {
      f, names := p, [];
      WalkRoot(cfg, p);
    } else {
      DirNameRankDrops(cfg, p);
      DirNameShape(cfg, p);
      f, names := WalkShape(cfg, DirName(cfg, p));
      BaseComponentShape(cfg, p);
      WalkStep(cfg, p);
      names := names + BaseComponent(cfg, p);
    }
  }

  /** What "." or a root contributes, spelled out. */
  function RootParts(cfg: Config, f: Path): seq<Path> {
    var r := DriveLength(cfg, f);
    if f == CURRENT_DIRECTORY then []
    else (if r == 0 then [] else [f[..r]]) + (if |f| == r then [] else [f[r..]])
  }

  /** The components of a path are those of "." or of a root, then words. */
  lemma ComponentsShape(cfg: Config, p: Path) returns (f: Path, names: seq<Path>)
    ensures f == CURRENT_DIRECTORY || IsRoot(cfg, f)
    ensures Components(cfg, p) == RootParts(cfg, f) + names && AllWords(cfg, names)
  {
    hide Walk, RootComponents, IsRoot, DriveLength;
    if p == [] {
      f, names := CURRENT_DIRECTORY, [];
    } else {
      f, names := WalkShape(cfg, p);
      RootPartsOf(cfg, f);
    }
  }

  lemma RootPartsOf(cfg: Config, f: Path)
    requires f == CURRENT_DIRECTORY || IsRoot(cfg, f)
    ensures RootComponents(cfg, f) == RootParts(cfg, f)
  {
    if f == CURRENT_DIRECTORY {
      NameIsStripped(cfg, f);
    } else {
      RootIsFixed(cfg, f);
      ComponentsOfRoot(cfg, f);
    }
  }

  // ---------------------------------------------------------------------------
  // Rebuilding a path from its components
  // ---------------------------------------------------------------------------

  /** The components of a word on its own: a drive that it starts with comes apart. */
  lemma ComponentsOfWord(cfg: Config, w: Path)
    requires IsWord(cfg, w) && w != CURRENT_DIRECTORY
    ensures Strip(cfg, w) == w
    ensures var r := DriveLength(cfg, w);
            Components(cfg, w) == if r == 0 || |w| == r then [w] else [w[..r], w[r..]]
  {
    var r := DriveLength(cfg, w);
    StripFixed(cfg, w);
    if r == 0 {
      NameIsStripped(cfg, w);
      ComponentsOfCurrentDirectory(cfg);
      assert !IsSeparator(cfg, w[0]);
      WalkStep(cfg, w);
    } else if |w| == r {
      ComponentsOfRoot(cfg, w);
      assert w[..r] == w;
    } else {
      ComponentsOfDriveWord(cfg, w[..r], w[r..]);
      assert w == w[..r] + w[r..];
    }
  }

  lemma ComponentsOfDriveWord(cfg: Config, drive: Path, w: Path)
    requires |drive| == DriveLength(cfg, drive) == 2 && IsWord(cfg, w)
    ensures Components(cfg, drive + w) == [drive, w]
  {
    hide Components, DriveLength, Walk;
    assert IsRoot(cfg, drive);
    StripFixed(cfg, drive);
    assert Append(cfg, drive, w) == drive + w by { AppendToDrive(cfg, drive, w); }
    ComponentsOfRoot(cfg, drive);
    assert drive[..2] == drive;
    ComponentsOfAppend(cfg, drive, w);
  }

  lemma AppendToDrive(cfg: Config, drive: Path, w: Path)
    requires |drive| == DriveLength(cfg, drive) == 2
    ensures Append(cfg, drive, w) == drive + w && Strip(cfg, drive) == drive
  {
    StripFixed(cfg, drive);
  }

  /** Leading "." components vanish when they are appended to: nothing begins with "." afterwards. */
  lemma {:induction false} FoldFromDot(cfg: Config, names: seq<Path>)
    requires AllWords(cfg, names)
    ensures var c := Components(cfg, FoldAppend(cfg, CURRENT_DIRECTORY, names));
            c == [] || c[0] != CURRENT_DIRECTORY
    decreases |names|
  {
    hide Components, Strip;
    if names == [] {
      ComponentsOfCurrentDirectory(cfg);
    } else if names[0] == CURRENT_DIRECTORY {
      FoldFromDot(cfg, names[1..]);
    } else {
      assert IsWord(cfg, names[0]);
      ComponentsOfWord(cfg, names[0]);
      ComponentsOfFold(cfg, names[0], names[1..]);
      if DriveLength(cfg, names[0]) != 0 {
        DriveIsNotDot(cfg, names[0]);
      }
    }
  }

  lemma DriveIsNotDot(cfg: Config, w: Path)
    requires DriveLength(cfg, w) != 0
    ensures w[..DriveLength(cfg, w)] != CURRENT_DIRECTORY
  {
  }

  /** The first component can be rebuilt from: it is not ".", and if it starts with a drive it is that drive. */
  predicate CanStart(cfg: Config, c: Path) {
    c != CURRENT_DIRECTORY && (DriveLength(cfg, c) == 0 || |c| == 2)
  }

  /** Appending the components of a path one by one to the first gives a path with the same components,
      if and only if the first is not "." and not a longer word that starts with a drive. */
  lemma RebuildIff(cfg: Config, p: Path)
    requires Components(cfg, p) != []
    ensures var c := Components(cfg, p);
            Components(cfg, FoldAppend(cfg, c[0], c[1..])) == c <==> CanStart(cfg, c[0])
  {
    hide Components, FoldAppend, IsRoot, RootParts, Strip;
    var f, names := ComponentsShape(cfg, p);
    if f == CURRENT_DIRECTORY {
      DotHasNoParts(cfg);
      assert Components(cfg, p) == names;
      RebuildFromWord(cfg, names);
    } else {
      RebuildFromRoot(cfg, f, names);
    }
  }

  lemma DotHasNoParts(cfg: Config)
    ensures RootParts(cfg, CURRENT_DIRECTORY) == []
  {
  }

  lemma RebuildFromWord(cfg: Config, c: seq<Path>)
    requires c != [] && AllWords(cfg, c)
    ensures Components(cfg, FoldAppend(cfg, c[0], c[1..])) == c <==> CanStart(cfg, c[0])
  {
    hide Components, FoldAppend, Strip;
    assert IsWord(cfg, c[0]);
    if c[0] == CURRENT_DIRECTORY {
      FoldFromDot(cfg, c[1..]);
    } else {
      ComponentsOfWord(cfg, c[0]);
      ComponentsOfFold(cfg, c[0], c[1..]);
      var all := Components(cfg, FoldAppend(cfg, c[0], c[1..]));
      assert c == [c[0]] + c[1..];
      assert all[0] == Components(cfg, c[0])[0];
    }
  }

  lemma RebuildFromRoot(cfg: Config, f: Path, names: seq<Path>)
    requires IsRoot(cfg, f) && AllWords(cfg, names)
    ensures var c := RootParts(cfg, f) + names;
            c != [] && CanStart(cfg, c[0]) && Components(cfg, FoldAppend(cfg, c[0], c[1..])) == c
  {
    hide Components, Strip;
    var r := DriveLength(cfg, f);
    ComponentsOfRoot(cfg, f);
    StripFixed(cfg, f);
    assert IsStripped(cfg, f) && f != CURRENT_DIRECTORY;
    ComponentsOfFold(cfg, f, names);
    var c := RootParts(cfg, f) + names;
    if 0 < r < |f| {
      AppendToDrive(cfg, f[..r], f[r..]);
      assert f[..r] + f[r..] == f;
      assert c[1..] == [f[r..]] + names;
    } else {
      assert f[0..] == f && f[..|f|] == f;
      assert RootParts(cfg, f) == [f];
      assert c[1..] == names;
    }
  }

  // ---------------------------------------------------------------------------
  // IsParent and AppendRelativePath
  // ---------------------------------------------------------------------------

  /** The first components match if they are equal or are drives that differ in case only. */
  predicate SameFirst(cfg: Config, a: Path, b: Path) {
    if DriveLength(cfg, a) != 0 && DriveLength(cfg, b) != 0 then StartsWithIgnoreCase(a, b) else a == b
  }

  /** Two drives match exactly if they have the same letter, in whatever case. */
  lemma DrivesMatch(cfg: Config, a: Path, b: Path)
    requires |a| == DriveLength(cfg, a) == 2 && |b| == DriveLength(cfg, b) == 2
    ensures SameFirst(cfg, a, b)
            <==> a[0] == b[0] || a[0] as int == b[0] as int + 32 || a[0] as int + 32 == b[0] as int
  {
  }

  predicate IsParent(cfg: Config, parent: Path, child: Path) {
    var a, b := Components(cfg, parent), Components(cfg, child);
    && 0 < |a| < |b|
    && SameFirst(cfg, a[0], b[0])
    && a[1..] == b[1..|a|]
  }

  /** The component comparison and, if a path is given, the appending loop. */
  method AppendRelativePath(cfg: Config, parent: Path, child: Path, path: Option<Path>)
    returns (ok: bool, result: Option<Path>)
    ensures ok <==> IsParent(cfg, parent, child)
    ensures result == if ok && path.Some?
                      then Some(FoldAppend(cfg, path.value, Components(cfg, child)[|Components(cfg, parent)|..]))
                      else path
  {
    hide Components, Append, DriveLength, StartsWithIgnoreCase;
    result := path;
    var a := GetComponents(cfg, parent);
    var b := GetComponents(cfg, child);
    if |a| == 0 || |a| >= |b| {
      return false, path;
    }
    var i := 0;
    if DriveLength(cfg, a[0]) != 0 && DriveLength(cfg, b[0]) != 0 {
      if !StartsWithIgnoreCase(a[0], b[0]) {
        return false, path;
      }
      i := 1;
    }
    while i < |a|
      invariant 0 <= i <= |a|
      invariant i > 0 ==> SameFirst(cfg, a[0], b[0])
      invariant forall k :: 1 <= k < i ==> a[k] == b[k]
      invariant i == 0 ==> DriveLength(cfg, a[0]) == 0 || DriveLength(cfg, b[0]) == 0
    {
      if a[i] != b[i] {
        assert i > 0 ==> a[1..][i - 1] == a[i] && b[1..|a|][i - 1] == b[i];
        return false, path;
      }
      i := i + 1;
    }
    if path.Some? {
      var joined := path.value;
      while i < |b|
        invariant |a| <= i <= |b|
        invariant FoldAppend(cfg, joined, b[i..]) == FoldAppend(cfg, path.value, b[|a|..])
      {
        joined := Append(cfg, joined, b[i]);
        i := i + 1;
      }
      result := Some(joined);
    }
    ok := true;
  }

  /** IsParent is "non-empty proper prefix of components", except that a drive in the first place is
      compared without regard to case; without drive letters there is no exception. */
  lemma IsParentIff(cfg: Config, parent: Path, child: Path)
    ensures var a, b := Components(cfg, parent), Components(cfg, child);
            && (IsParent(cfg, parent, child)
                <==> a != [] && b != [] && SameFirst(cfg, a[0], b[0]) && [b[0]] + a[1..] < b)
            && (!cfg.driveLetters ==> (IsParent(cfg, parent, child) <==> a != [] && a < b))
  {
    hide Components;
    var a, b := Components(cfg, parent), Components(cfg, child);
    if 0 < |a| < |b| {
      assert a == [a[0]] + a[1..];
      assert b[..|a|] == [b[0]] + b[1..|a|];
      assert ([b[0]] + a[1..])[1..] == a[1..];
    }
  }

  /** IsParent is a strict partial order, with drive letters too. */
  lemma IsParentOrder(cfg: Config, p: Path, q: Path, s: Path)
    ensures !IsParent(cfg, p, p)
    ensures IsParent(cfg, p, q) ==> !IsParent(cfg, q, p)
    ensures IsParent(cfg, p, q) && IsParent(cfg, q, s) ==> IsParent(cfg, p, s)
  {
    hide Components, DriveLength;
    var a, b, c := Components(cfg, p), Components(cfg, q), Components(cfg, s);
    if 0 < |a| < |b| < |c| {
      assert b[1..][..|a| - 1] == b[1..|a|];
      assert c[1..|b|][..|a| - 1] == c[1..|a|];
    }
  }

  /** The components of the child beyond the parent's are words; they are not if the parent is a bare
      drive and the child is below the root of one. */
  predicate NoRootLeft(cfg: Config, parent: Path, child: Path)
    requires |Components(cfg, parent)| < |Components(cfg, child)|
  {
    0 < |Components(cfg, parent)| && (|Components(cfg, parent)| > 1 || NoSeparators(cfg, Components(cfg, child)[1]))
  }

  lemma RestIsWords(cfg: Config, parent: Path, child: Path)
    requires |Components(cfg, parent)| < |Components(cfg, child)| && NoRootLeft(cfg, parent, child)
    ensures AllWords(cfg, Components(cfg, child)[|Components(cfg, parent)|..])
  {
    hide Components;
    var f, names := ComponentsShape(cfg, child);
    var n, b := |Components(cfg, parent)|, Components(cfg, child);
    var parts := RootParts(cfg, f);
    RootPartsShape(cfg, f);
    assert |parts| == 2 ==> b[1] == parts[1];
    assert forall k :: n <= k < |b| ==> b[k] == names[k - |parts|];
  }

  lemma RootPartsShape(cfg: Config, f: Path)
    requires f == CURRENT_DIRECTORY || IsRoot(cfg, f)
    ensures |RootParts(cfg, f)| <= 2 && (|RootParts(cfg, f)| == 2 ==> !NoSeparators(cfg, RootParts(cfg, f)[1]))
  {
    var parts := RootParts(cfg, f);
    if |parts| == 2 {
      assert IsSeparator(cfg, parts[1][0]);
    }
  }

  /** Without drive letters there is never a root left. */
  lemma NoDriveNoRoot(cfg: Config, parent: Path, child: Path)
    requires !cfg.driveLetters && 0 < |Components(cfg, parent)| < |Components(cfg, child)|
    ensures NoRootLeft(cfg, parent, child)
  {
    hide Components;
    var f, names := ComponentsShape(cfg, child);
    var b := Components(cfg, child);
    assert |RootParts(cfg, f)| <= 1;
    assert b[1] == names[1 - |RootParts(cfg, f)|];
  }

  predicate IsDrive(cfg: Config, p: Path) {
    |p| == 2 && DriveLength(cfg, p) == 2
  }

  /** Trailing separators do not change the components, except those of "./". */
  lemma ComponentsOfStripped(cfg: Config, p: Path)
    requires p != [] && Strip(cfg, p) != CURRENT_DIRECTORY
    ensures Components(cfg, p) == Components(cfg, Strip(cfg, p))
  {
    hide Strip, DirName, BaseName, Walk, IsRoot, AreAllSeparators;
    var q := Strip(cfg, p);
    if p != q {
      StripFixed(cfg, p);
      StripShape(cfg, p);
      SameSplit(cfg, p);
      DirNameFixpoints(cfg, q);
      assert DirName(cfg, p) != p by { DirNameShape(cfg, p); }
      WalkStep(cfg, p);
      if DirName(cfg, q) == q {
        RootHasNoBase(cfg, p);
      } else {
        WalkStep(cfg, q);
      }
    }
  }

  lemma SameSplit(cfg: Config, p: Path)
    ensures DirName(cfg, Strip(cfg, p)) == DirName(cfg, p) && BaseName(cfg, Strip(cfg, p)) == BaseName(cfg, p)
  {
    hide Strip;
    StripFixed(cfg, p);
  }

  /** Appending to a path and appending to the stripped path are the same. */
  lemma AppendOfStripped(cfg: Config, p: Path, b: Path)
    requires p != CURRENT_DIRECTORY && Strip(cfg, p) != CURRENT_DIRECTORY
    ensures Append(cfg, Strip(cfg, p), b) == Append(cfg, p, b)
  {
    hide Strip;
    StripFixed(cfg, p);
  }

  /** So only the stripped path matters when words are appended. */
  lemma FoldOfStripped(cfg: Config, p: Path, names: seq<Path>)
    requires p != [] && Strip(cfg, p) != CURRENT_DIRECTORY && AllWords(cfg, names)
    ensures Components(cfg, FoldAppend(cfg, p, names)) == Components(cfg, Strip(cfg, p)) + names
  {
    hide Strip, Components, Append;
    var q := Strip(cfg, p);
    StripFixed(cfg, p);
    StripShape(cfg, p);
    StripFixed(cfg, CURRENT_DIRECTORY);
    DotIsStripped(cfg);
    ComponentsOfFold(cfg, q, names);
    if names == [] {
      ComponentsOfStripped(cfg, p);
    } else {
      AppendOfStripped(cfg, p, names[0]);
    }
  }

  lemma DotIsStripped(cfg: Config)
    ensures Strip(cfg, CURRENT_DIRECTORY) == CURRENT_DIRECTORY
  {
    StripFixed(cfg, CURRENT_DIRECTORY);
  }

  /** One or two separators, as a root contributes them to a component list. */
  predicate IsRootPart(cfg: Config, seps: Path) {
    1 <= |seps| <= 2 && AreAllSeparators(cfg, seps)
  }

  /** What is left of a path to which root separators are appended: a bare drive takes them, a root stays a root with
      one or two separators, and any other path loses them again. */
  lemma RootAppended(cfg: Config, path: Path, seps: Path)
    requires path != [] && path != CURRENT_DIRECTORY && Strip(cfg, path) == path && IsRootPart(cfg, seps)
    ensures var q := Strip(cfg, Append(cfg, path, seps));
            && Append(cfg, path, seps) != [] && q != [] && q != CURRENT_DIRECTORY
            && (IsDrive(cfg, path) ==> q == path + seps)
            && (!IsDrive(cfg, path) && IsRoot(cfg, path) ==>
                  IsRoot(cfg, q) && DriveLength(cfg, q) == DriveLength(cfg, path) && |q| > DriveLength(cfg, q))
            && (!IsRoot(cfg, path) ==> q == path)
  {
    if IsDrive(cfg, path) {
      AppendToDrive(cfg, path, seps);
      assert IsStripped(cfg, path + seps);
      StripFixed(cfg, path + seps);
    } else {
      RootOnPath(cfg, path, seps);
    }
  }

  lemma RootOnPath(cfg: Config, path: Path, seps: Path)
    requires path != [] && path != CURRENT_DIRECTORY && Strip(cfg, path) == path && IsRootPart(cfg, seps)
    requires !IsDrive(cfg, path)
    ensures var j := Append(cfg, path, seps);
            && path < j && DriveLength(cfg, j) == DriveLength(cfg, path) && SeparatorsIn(cfg, j, |path|, |j|)
    ensures var q := Strip(cfg, Append(cfg, path, seps));
            && q != [] && q != CURRENT_DIRECTORY
            && (IsRoot(cfg, path) ==>
                  IsRoot(cfg, q) && DriveLength(cfg, q) == DriveLength(cfg, path) && |q| > DriveLength(cfg, q))
            && (!IsRoot(cfg, path) ==> q == path)
  {
    var j := Append(cfg, path, seps);
    StripFixed(cfg, path);
    assert j == path + seps || j == path + [CanonicalSeparator(cfg)] + seps;
    assert DriveLength(cfg, path) != |path|;
    StripOfLonger(cfg, path, j);
  }

  /** Stripping separators that follow a stripped path. */
  lemma StripOfLonger(cfg: Config, path: Path, j: Path)
    requires path != [] && path != CURRENT_DIRECTORY && IsStripped(cfg, path) && DriveLength(cfg, path) != |path|
    requires path < j && DriveLength(cfg, j) == DriveLength(cfg, path) && SeparatorsIn(cfg, j, |path|, |j|)
    ensures var q := Strip(cfg, j);
            && q != [] && q != CURRENT_DIRECTORY
            && (IsRoot(cfg, path) ==>
                  IsRoot(cfg, q) && DriveLength(cfg, q) == DriveLength(cfg, path) && |q| > DriveLength(cfg, q))
            && (!IsRoot(cfg, path) ==> q == path)
  {
    var r := DriveLength(cfg, path);
    var e := CoreEnd(cfg, j, r, |j|);
    assert forall i :: 0 <= i < |path| ==> j[i] == path[i];
    if IsRoot(cfg, path) {
      assert e == r;
      assert IsSeparator(cfg, Strip(cfg, j)[r]);
    } else {
      assert !IsSeparator(cfg, j[|path| - 1]);
      assert e == |path|;
      assert j[..e] == path;
    }
  }

  /** What AppendRelativePath makes of a path: its components followed by the ones the child has beyond the
      parent, if and only if no root is among those or the path is a bare drive. */
  lemma RelativeIff(cfg: Config, parent: Path, child: Path, path: Path)
    requires IsParent(cfg, parent, child)
    requires path != [] && path != CURRENT_DIRECTORY && Strip(cfg, path) == path
    ensures var rest := Components(cfg, child)[|Components(cfg, parent)|..];
            Components(cfg, FoldAppend(cfg, path, rest)) == Components(cfg, path) + rest
            <==> NoRootLeft(cfg, parent, child) || IsDrive(cfg, path)
  {
    hide Components, Strip, FoldAppend, IsRoot;
    if NoRootLeft(cfg, parent, child) {
      RestIsWords(cfg, parent, child);
      ComponentsOfFold(cfg, path, Components(cfg, child)[|Components(cfg, parent)|..]);
    } else {
      var rest := RestHasRoot(cfg, parent, child);
      RelativeWithRoot(cfg, path, rest[0], rest[1..]);
      PartsWithRoot(cfg, path, rest[0]);
      assert rest == [rest[0]] + rest[1..];
      var c := Components(cfg, path);
      assert |c + rest| == |c| + 1 + |rest[1..]|;
    }
  }

  /** With a root among them, the remaining components are root separators and then words. */
  lemma RestHasRoot(cfg: Config, parent: Path, child: Path) returns (rest: seq<Path>)
    requires IsParent(cfg, parent, child) && !NoRootLeft(cfg, parent, child)
    ensures rest == Components(cfg, child)[|Components(cfg, parent)|..]
    ensures rest != [] && IsRootPart(cfg, rest[0]) && AllWords(cfg, rest[1..])
  {
    hide Components;
    rest := Components(cfg, child)[|Components(cfg, parent)|..];
    var f, names := ComponentsShape(cfg, child);
    var b := Components(cfg, child);
    assert |Components(cfg, parent)| == 1;
    RootPartsShape(cfg, f);
    var parts := RootParts(cfg, f);
    assert rest[0] == b[1] == parts[1] && rest[1..] == b[2..] == names;
  }

  /** The root separators go into the path as `RootAppended` says, and the words follow. */
  lemma RelativeWithRoot(cfg: Config, path: Path, seps: Path, names: seq<Path>)
    requires path != [] && path != CURRENT_DIRECTORY && Strip(cfg, path) == path
    requires IsRootPart(cfg, seps) && AllWords(cfg, names)
    ensures Components(cfg, FoldAppend(cfg, path, [seps] + names))
            == Components(cfg, Strip(cfg, Append(cfg, path, seps))) + names
  {
    hide Components, Strip, Append, IsRoot;
    RootAppended(cfg, path, seps);
    var j := Append(cfg, path, seps);
    assert ([seps] + names)[1..] == names;
    assert FoldAppend(cfg, path, [seps] + names) == FoldAppend(cfg, j, names);
    FoldOfStripped(cfg, j, names);
  }

  /** A bare drive has one component more with the separators; any other path as many as before. */
  lemma PartsWithRoot(cfg: Config, path: Path, seps: Path)
    requires path != [] && path != CURRENT_DIRECTORY && Strip(cfg, path) == path && IsRootPart(cfg, seps)
    ensures var c, c' := Components(cfg, path), Components(cfg, Strip(cfg, Append(cfg, path, seps)));
            if IsDrive(cfg, path) then c' == c + [seps] else |c'| == |c|
  {
    hide Components, Strip, Append;
    RootAppended(cfg, path, seps);
    var q := Strip(cfg, Append(cfg, path, seps));
    if IsDrive(cfg, path) {
      DriveAndRoot(cfg, path, seps);
    } else if IsRoot(cfg, path) {
      ComponentsOfRoot(cfg, path);
      ComponentsOfRoot(cfg, q);
    }
  }

  lemma DriveAndRoot(cfg: Config, drive: Path, seps: Path)
    requires IsDrive(cfg, drive) && IsRootPart(cfg, seps)
    ensures Components(cfg, drive) == [drive] && Components(cfg, drive + seps) == [drive, seps]
  {
    hide Components;
    ComponentsOfRoot(cfg, drive);
    assert drive[..2] == drive;
    var g := drive + seps;
    assert IsRoot(cfg, g) && g[..2] == drive && g[2..] == seps;
    ComponentsOfRoot(cfg, g);
  }

  /** Starting from the parent itself, AppendRelativePath arrives at the child's components, but for the
      case of a drive letter in the first, under the same condition. */
  lemma RelativeFromParent(cfg: Config, parent: Path, child: Path)
    requires IsParent(cfg, parent, child)
    requires parent != CURRENT_DIRECTORY && Strip(cfg, parent) == parent
    ensures var b := Components(cfg, child);
            var all := Components(cfg, FoldAppend(cfg, parent, b[|Components(cfg, parent)|..]));
            && (|all| == |b| && SameFirst(cfg, all[0], b[0]) && all[1..] == b[1..]
                <==> NoRootLeft(cfg, parent, child) || IsDrive(cfg, parent))
            && (!cfg.driveLetters ==> all == b)
  {
    assert parent != [];
    hide Components, Strip, FoldAppend, SameFirst, NoRootLeft, IsDrive;
    var a, b := Components(cfg, parent), Components(cfg, child);
    RelativeIff(cfg, parent, child, parent);
    TailsAgree(a, b);
    if !cfg.driveLetters {
      NoDriveNoRoot(cfg, parent, child);
      IsParentIff(cfg, parent, child);
    }
    if !(NoRootLeft(cfg, parent, child) || IsDrive(cfg, parent)) {
      RelativeShort(cfg, parent, child);
    }
  }

  /** If a root is lost, so is a component. */
  lemma RelativeShort(cfg: Config, parent: Path, child: Path)
    requires IsParent(cfg, parent, child) && !NoRootLeft(cfg, parent, child) && !IsDrive(cfg, parent)
    requires parent != [] && parent != CURRENT_DIRECTORY && Strip(cfg, parent) == parent
    ensures var b := Components(cfg, child);
            |Components(cfg, FoldAppend(cfg, parent, b[|Components(cfg, parent)|..]))| < |b|
  {
    hide Components, Strip, FoldAppend, IsRoot, NoRootLeft;
    var rest := RestHasRoot(cfg, parent, child);
    RelativeWithRoot(cfg, parent, rest[0], rest[1..]);
    PartsWithRoot(cfg, parent, rest[0]);
    assert rest == [rest[0]] + rest[1..];
  }

  lemma TailsAgree(a: seq<Path>, b: seq<Path>)
    requires 0 < |a| < |b| && a[1..] == b[1..|a|]
    ensures var all := a + b[|a|..];
            |all| == |b| && all[0] == a[0] && all[1..] == b[1..] && (a < b ==> all == b)
  {
    assert b[1..] == b[1..|a|] + b[|a|..];
    assert (a + b[|a|..])[1..] == a[1..] + b[|a|..];
  }

  /** "." and "./" name the same directory, but only the second has a component. */
  lemma CurrentDirectoryCorner()
    ensures Components(POSIX, ".") == [] && Components(POSIX, "./") == ["."]
  {
    ComponentsOfCurrentDirectory(POSIX);
    StripFixed(POSIX, ".");
    assert Strip(POSIX, "./") == "." by {
      assert CoreEnd(POSIX, "./", 0, 2) == 1;
      assert "./"[..1] == ".";
    }
    NameIsStripped(POSIX, ".");
    assert DirName(POSIX, "./") == DirName(POSIX, ".") && BaseName(POSIX, "./") == BaseName(POSIX, ".");
    WalkStep(POSIX, "./");
  }

  /** With drive letters, a word that looks like a drive is a component, but does not rebuild its path. */
  lemma DriveNameCorner()
    ensures var cfg := Config(true, true);
            Components(cfg, "./C:x") == ["C:x"] && !CanStart(cfg, "C:x")
  {
    hide Components, DirName, BaseName, Walk;
    var cfg := Config(true, true);
    DotSlashName(cfg);
    ComponentsOfCurrentDirectory(cfg);
    WalkStep(cfg, "./C:x");
    ComponentsAreWalk(cfg, "./C:x");
    ComponentsAreWalk(cfg, CURRENT_DIRECTORY);
    assert "C:x"[0] == 'C';
  }

  lemma ComponentsAreWalk(cfg: Config, p: Path)
    requires p != []
    ensures Components(cfg, p) == Walk(cfg, p)
  {
  }

  lemma DotSlashName(cfg: Config)
    ensures DirName(cfg, "./C:x") == CURRENT_DIRECTORY && BaseName(cfg, "./C:x") == "C:x"
  {
    var p := "./C:x";
    StripFixed(cfg, p);
    StripFixed(cfg, CURRENT_DIRECTORY);
    LastSeparatorUnique(cfg, p, 1);
    assert p[..1] == CURRENT_DIRECTORY && p[2..] == "C:x";
    BaseNameFrom(cfg, p, 2);
  }
}
