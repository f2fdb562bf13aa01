/**
 File extensions: where the extension of a path starts, and when taking it off
 and putting it back gives the path again.
 */
module FilePathExtension {
  import opened FilePath
  import FilePathComponents

  /** The position of the last dot before `end`, or -1. */
  function LastDotBefore(p: Path, end: nat): (i: int)
    requires end <= |p|
    ensures -1 <= i < end
    ensures i >= 0 ==> p[i] == '.'
    ensures forall k :: i < k < end ==> p[k] != '.'
  {
    if end == 0 then -1 else if p[end - 1] == '.' then end - 1 else LastDotBefore(p, end - 1)
  }

  /** `s` in lower case is the given ASCII word. */
  predicate LowerCaseEqualsASCII(s: Path, word: Path) {
    |s| == |word| && forall i :: 0 <= i < |s| ==> FilePathComponents.LowerASCII(s[i]) == word[i]
  }

  predicate IsCommonDoubleExtension(s: Path) {
    LowerCaseEqualsASCII(s, "gz") || LowerCaseEqualsASCII(s, "z") || LowerCaseEqualsASCII(s, "bz2")
  }

  /** Where the extension starts if the last dot is at `last`: one dot earlier for
      name.ext1.ext2 when ext2 is a common double extension and ext1 has 1 to 4 characters. */
  function FromLastDot(cfg: Config, p: Path, last: nat): int
    requires last < |p|
  {
    var penultimate := LastDotBefore(p, last);
    var separator := LastSeparatorBefore(cfg, p, last);
    if && IsCommonDoubleExtension(p[last + 1..])
       && penultimate != -1
       && (separator == -1 || penultimate > separator)
       && 1 < last - penultimate <= 5
    then penultimate
    else last
  }

  /** The position of the dot that starts the extension, or -1. */
  function ExtensionSeparatorPosition(cfg: Config, p: Path): (dot: int)
    ensures -1 <= dot < |p|
  {
    var last := LastDotBefore(p, |p|);
    if p == CURRENT_DIRECTORY || p == PARENT_DIRECTORY then -1
    else if last == -1 || last == 0 then last
    else FromLastDot(cfg, p, last)
  }

  function Extension(cfg: Config, p: Path): Path {
    var base := BaseName(cfg, p);
    var dot := ExtensionSeparatorPosition(cfg, base);
    if dot == -1 then [] else base[dot..]
  }

  function RemoveExtension(cfg: Config, p: Path): Path {
    var dot := ExtensionSeparatorPosition(cfg, p);
    if Extension(cfg, p) == [] || dot == -1 then p else p[..dot]
  }

  /** A non-empty extension starts with precisely one dot. */
  lemma ExtensionStartsWithOneDot(cfg: Config, p: Path)
    ensures var ext := Extension(cfg, p);
            ext != [] ==> ext[0] == '.' && (|ext| == 1 || ext[1] != '.')
  {
    hide BaseName;
    var base := BaseName(cfg, p);
    var last := LastDotBefore(base, |base|);
    if last > 0 {
      var penultimate := LastDotBefore(base, last);
    }
  }

  /** The words that make a double extension, in any case: gz, z and bz2. */
  lemma CommonDoubleExtensions(s: Path)
    ensures IsCommonDoubleExtension(s)
            <==> || (|s| == 1 && s[0] in "zZ")
                 || (|s| == 2 && s[0] in "gG" && s[1] in "zZ")
                 || (|s| == 3 && s[0] in "bB" && s[1] in "zZ" && s[2] == '2')
  {
    assert forall c: char :: c in "zZ" <==> c == 'z' || c == 'Z' by { assert "zZ"[0] == 'z' && "zZ"[1] == 'Z'; }
    assert forall c: char :: c in "gG" <==> c == 'g' || c == 'G' by { assert "gG"[0] == 'g' && "gG"[1] == 'G'; }
    assert forall c: char :: c in "bB" <==> c == 'b' || c == 'B' by { assert "bB"[0] == 'b' && "bB"[1] == 'B'; }
  }

  /** A base name without a dot, and "." and "..", have no extension. */
  lemma NoExtension(cfg: Config, p: Path)
    requires Dotless(BaseName(cfg, p)) || BaseName(cfg, p) == "." || BaseName(cfg, p) == ".."
    ensures Extension(cfg, p) == [] && RemoveExtension(cfg, p) == p
  {
    hide BaseName;
    var base := BaseName(cfg, p);
    var last := LastDotBefore(base, |base|);
  }

  predicate Dotless(s: Path) {
    forall i :: 0 <= i < |s| ==> s[i] != '.'
  }

  /** The last dot of a name that ends in a dot and a dotless word is that dot. */
  lemma LastDotOf(stem: Path, ext: Path)
    requires Dotless(ext)
    ensures var n := stem + "." + ext; LastDotBefore(n, |n|) == |stem|
  {
    var n := stem + "." + ext;
    assert n[|stem|] == '.';
    assert forall k :: |stem| < k < |n| ==> n[k] == ext[k - |stem| - 1];
  }

  lemma LastDotOfPrefix(p: Path, q: Path, end: nat)
    requires end <= |p| && end <= |q| && p[..end] == q[..end]
    ensures LastDotBefore(p, end) == LastDotBefore(q, end)
  {
    var i, j := LastDotBefore(p, end), LastDotBefore(q, end);
    assert forall k :: 0 <= k < end ==> p[k] == p[..end][k] == q[..end][k] == q[k];
  }

  /** A base name with one dot: the extension is everything from that dot. */
  lemma SingleExtensionRule(cfg: Config, p: Path, stem: Path, ext: Path)
    requires BaseName(cfg, p) == stem + "." + ext && Dotless(stem) && Dotless(ext)
    requires BaseName(cfg, p) != CURRENT_DIRECTORY
    ensures Extension(cfg, p) == "." + ext
  {
    hide BaseName;
    var n := stem + "." + ext;
    LastDotOf(stem, ext);
    assert forall k :: 0 <= k < |stem| ==> n[k] == stem[k];
    assert forall k :: |stem| < k < |n| ==> n[k] == ext[k - |stem| - 1];
    assert n != PARENT_DIRECTORY by {
      assert n[0] != '.' || n[|n| - 1] != '.' || |n| == 1;
    }
    assert n[|stem|..] == "." + ext;
  }

  /** A base name with more dots: the last two words make the extension exactly when
      the last is a common double extension and the other has 1 to 4 characters. */
  lemma DoubleExtensionRule(cfg: Config, p: Path, stem: Path, ext1: Path, ext2: Path)
    requires BaseName(cfg, p) == stem + "." + ext1 + "." + ext2 && Dotless(ext1) && Dotless(ext2)
    requires BaseName(cfg, p) != PARENT_DIRECTORY
    ensures Extension(cfg, p) == if IsCommonDoubleExtension(ext2) && 1 <= |ext1| <= 4
                                 then "." + ext1 + "." + ext2 else "." + ext2
  {
    hide BaseName, LastDotBefore, IsCommonDoubleExtension;
    assert (stem + "." + ext1 + "." + ext2)[|stem|] == '.';
    DottedBase(cfg, p, |stem|);
    var front := stem + "." + ext1;
    var n := front + "." + ext2;
    var last := |front|;
    LastDotOf(front, ext2);
    LastDotOf(stem, ext1);
    assert n[..last] == front[..last];
    LastDotOfPrefix(n, front, last);
    var separator := LastSeparatorBefore(cfg, n, last);
    assert separator == -1;
    assert n[last + 1..] == ext2;
    assert n[last..] == "." + ext2 && n[|stem|..] == "." + ext1 + "." + ext2;
  }

  /** A base name with a dot in it has no separator. */
  lemma DottedBase(cfg: Config, p: Path, i: nat)
    requires i < |BaseName(cfg, p)| && BaseName(cfg, p)[i] == '.'
    ensures NoSeparators(cfg, BaseName(cfg, p))
  {
    assert p != [];
    hide Strip, BaseName, BaseStart, IsRoot;
    if IsRoot(cfg, Strip(cfg, p)) {
      FilePathComponents.RootHasNoBase(cfg, p);
    } else {
      SplitBase(cfg, p);
    }
  }

  lemma LastDotShift(p: Path, start: nat, end: nat)
    requires start <= end <= |p| && LastDotBefore(p[start..], end - start) != -1
    ensures LastDotBefore(p, end) == start + LastDotBefore(p[start..], end - start)
  {
    var b := p[start..];
    var i := LastDotBefore(b, end - start);
    assert p[start + i] == b[i];
    assert forall k :: start + i < k < end ==> p[k] == b[k - start];
  }

  /** `start` is where the base name of `p` begins: everything from there on is free
      of separators, and what comes before is nothing, a drive, or ends in a separator. */
  predicate StartsBase(cfg: Config, p: Path, start: nat) {
    && start < |p|
    && NoSeparatorIn(cfg, p, start, |p|)
    && (start == 0 || start == DriveLength(cfg, p) || IsSeparator(cfg, p[start - 1]))
  }

  /** No dot before the base name can pass for the start of a double extension. */
  lemma NoDotBeforeBase(cfg: Config, p: Path, start: nat, last: nat)
    requires StartsBase(cfg, p, start) && start <= last < |p|
    ensures var pen, sep := LastDotBefore(p, last), LastSeparatorBefore(cfg, p, last);
            pen < start ==> pen == -1 || (sep != -1 && sep >= pen)
    ensures LastSeparatorBefore(cfg, p, last) < start
  {
    var pen, sep := LastDotBefore(p, last), LastSeparatorBefore(cfg, p, last);
    assert sep >= 0 ==> IsSeparator(cfg, p[sep]);
    if start > 0 && start != DriveLength(cfg, p) {
      assert sep >= start - 1;
    }
  }

  lemma FromLastDotShift(cfg: Config, p: Path, start: nat, last: nat)
    requires StartsBase(cfg, p, start) && start <= last < |p| && last != start
    ensures FromLastDot(cfg, p, last) == start + FromLastDot(cfg, p[start..], last - start)
  {
    hide IsCommonDoubleExtension, LastDotBefore, LastSeparatorBefore, DriveLength;
    var base := p[start..];
    assert p[last + 1..] == base[last - start + 1..];
    NoDotBeforeBase(cfg, p, start, last);
    var bsep := LastSeparatorBefore(cfg, base, last - start);
    assert forall k :: 0 <= k < |base| ==> base[k] == p[start + k];
    assert bsep == -1;
    if LastDotBefore(base, last - start) != -1 {
      LastDotShift(p, start, last);
    } else {
      assert forall k :: start <= k < last ==> p[k] == base[k - start];
    }
  }

  lemma FromFirstDot(cfg: Config, p: Path, start: nat)
    requires StartsBase(cfg, p, start)
    ensures FromLastDot(cfg, p, start) == start
  {
    NoDotBeforeBase(cfg, p, start, start);
  }

  /** The dot found in the full path is the dot found in the base name. */
  lemma PositionShift(cfg: Config, p: Path, start: nat)
    requires StartsBase(cfg, p, start) && ExtensionSeparatorPosition(cfg, p[start..]) != -1
    ensures ExtensionSeparatorPosition(cfg, p) == start + ExtensionSeparatorPosition(cfg, p[start..])
  {
    hide FromLastDot, LastDotBefore;
    var base := p[start..];
    if start == 0 {
      assert base == p;
    } else {
      assert p[start - 1] != '.';
      LastDotShift(p, start, |p|);
      var last := LastDotBefore(p, |p|);
      if last == start {
        FromFirstDot(cfg, p, start);
      } else {
        FromLastDotShift(cfg, p, start, last);
      }
    }
  }

  /** A path that strips to a root has no extension. */
  lemma RootHasNoExtension(cfg: Config, p: Path)
    requires p == [] || IsRoot(cfg, Strip(cfg, p))
    ensures Extension(cfg, p) == []
  {
    var q := Strip(cfg, p);
    StripShape(cfg, p);
    assert AreAllSeparators(cfg, q[DriveLength(cfg, q)..]);
    var base := BaseName(cfg, p);
    assert AreAllSeparators(cfg, base);
    var last := LastDotBefore(base, |base|);
    assert last >= 0 ==> IsSeparator(cfg, base[last]);
  }

  /** Taking the extension off and putting it back gives the path again, exactly
      when the path has no strippable trailing separator or no extension at all. */
  lemma RemoveThenAddExtension(cfg: Config, p: Path)
    ensures RemoveExtension(cfg, p) + Extension(cfg, p) == p <==> Strip(cfg, p) == p || Extension(cfg, p) == []
  {
    hide Strip, BaseName, ExtensionSeparatorPosition, BaseStart;
    if Extension(cfg, p) != [] {
      if p == [] || IsRoot(cfg, Strip(cfg, p)) {
        RootHasNoExtension(cfg, p);
      } else {
        SplitBase(cfg, p);
        if Strip(cfg, p) == p {
          RemoveAddStripped(cfg, p);
        } else {
          RemoveAddUnstripped(cfg, p);
        }
      }
    }
  }

  lemma RemoveAddStripped(cfg: Config, p: Path)
    requires p != [] && Strip(cfg, p) == p && !IsRoot(cfg, p) && Extension(cfg, p) != []
    ensures RemoveExtension(cfg, p) + Extension(cfg, p) == p
  {
    hide Strip, BaseName, ExtensionSeparatorPosition;
    SplitBase(cfg, p);
    var start := BaseStart(cfg, p);
    assert p[start..] == BaseName(cfg, p);
    assert StartsBase(cfg, p, start);
    PositionShift(cfg, p, start);
  }

  lemma RemoveAddUnstripped(cfg: Config, p: Path)
    requires p != [] && Strip(cfg, p) != p && !IsRoot(cfg, Strip(cfg, p)) && Extension(cfg, p) != []
    ensures RemoveExtension(cfg, p) + Extension(cfg, p) != p
  {
    hide Strip, BaseName, ExtensionSeparatorPosition, BaseStart;
    SplitBase(cfg, p);
    StripFixed(cfg, p);
    assert IsSeparator(cfg, p[|p| - 1]);
    var base, ext := BaseName(cfg, p), Extension(cfg, p);
    assert ext[|ext| - 1] == base[|base| - 1];
    var joined := RemoveExtension(cfg, p) + ext;
    assert joined[|joined| - 1] == ext[|ext| - 1];
  }

  /** With strippable trailing separators RemoveExtension cuts at the last dot, double extension or not. */
  lemma RemoveExtensionUnstripped(cfg: Config, p: Path)
    requires Strip(cfg, p) != p && Extension(cfg, p) != []
    ensures var dot := LastDotBefore(p, |p|); dot >= 0 && RemoveExtension(cfg, p) == p[..dot]
  {
    hide Strip, BaseName, BaseStart, IsRoot, LastDotBefore, ExtensionSeparatorPosition;
    assert p != [] && IsSeparator(cfg, p[|p| - 1]) by {
      StripFixed(cfg, p);
    }
    if IsRoot(cfg, Strip(cfg, p)) {
      RootHasNoExtension(cfg, p);
    } else {
      DotInPath(cfg, p);
      CutAtLastDot(cfg, p);
    }
  }

  lemma CutAtLastDot(cfg: Config, p: Path)
    requires p != [] && IsSeparator(cfg, p[|p| - 1]) && LastDotBefore(p, |p|) >= 0
    ensures ExtensionSeparatorPosition(cfg, p) == LastDotBefore(p, |p|)
  {
    hide LastDotBefore, IsCommonDoubleExtension, LastSeparatorBefore;
    var dot := LastDotBefore(p, |p|);
    NotCommonWithSeparator(cfg, p[dot + 1..]);
  }

  lemma DotInPath(cfg: Config, p: Path)
    requires p != [] && !IsRoot(cfg, Strip(cfg, p)) && Extension(cfg, p) != []
    ensures LastDotBefore(p, |p|) >= 0
  {
    hide Strip, BaseName, BaseStart, IsRoot, IsCommonDoubleExtension;
    SplitBase(cfg, p);
    StripShape(cfg, p);
    var base, q := BaseName(cfg, p), Strip(cfg, p);
    var k := LastDotBefore(base, |base|);
    assert k >= 0;
    assert p[BaseStart(cfg, q) + k] == q[BaseStart(cfg, q) + k] == base[k];
  }

  lemma NotCommonWithSeparator(cfg: Config, s: Path)
    requires s != [] ==> IsSeparator(cfg, s[|s| - 1])
    ensures !IsCommonDoubleExtension(s)
  {
  }

  /** With a trailing separator the two disagree about where the extension is. */
  lemma TrailingSeparatorCorner()
    ensures Extension(POSIX, "a.b/") == ".b"
    ensures RemoveExtension(POSIX, "a.b/") + Extension(POSIX, "a.b/") != "a.b/"
  {
    var p, q := "a.b/", "a.b";
    assert CoreEnd(POSIX, p, 0, 4) == CoreEnd(POSIX, p, 0, 3) == 3;
    assert Strip(POSIX, p) == p[..3] == q;
    assert IsName(POSIX, q);
    NameIsStripped(POSIX, q);
    BaseNameOfStrip(POSIX, p);
    assert LastDotBefore(q, 3) == LastDotBefore(q, 2) == 1;
    assert ExtensionSeparatorPosition(POSIX, q) == 1;
    assert q[1..] == ".b";
    RemoveThenAddExtension(POSIX, p);
  }
}
