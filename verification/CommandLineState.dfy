/**
 A POSIX command line as a value: the argument vector, the position that divides
 switches from arguments, and the index of switch values.

 The index is a second copy of what the switch section of argv says.  Here every
 operation is a function on values; `Indexed` says that the two copies agree.
 */
module CommandLineState {
  import opened CommandLineSyntax

  // ---------------------------------------------------------------------------
  // Trimming and splitting
  // ---------------------------------------------------------------------------

  predicate IsWhitespace(c: char) {
    c == ' ' || '\t' <= c <= '\r'
  }

  /** Space, tab, newline, vertical tab, form feed and carriage return. */
  lemma WhitespaceIs(c: char)
    ensures IsWhitespace(c) <==> c in " \t\n\U{b}\U{c}\r"
  {
    var all := " \t\n\U{b}\U{c}\r";
    assert all[0] == ' ' && all[1] == '\t' && all[2] == '\n' && all[3] == '\U{b}' && all[4] == '\U{c}' && all[5] == '\r';
  }

  predicate IsTrimmed(s: string) {
    s == [] || (!IsWhitespace(s[0]) && !IsWhitespace(s[|s| - 1]))
  }

  function Trim(s: string): (r: string)
    ensures IsTrimmed(r)
    ensures IsTrimmed(s) ==> r == s
    ensures !IsTrimmed(s) ==> |r| < |s|
    decreases |s|
  {
    if s == [] then []
    else if IsWhitespace(s[0]) then Trim(s[1..])
    else if IsWhitespace(s[|s| - 1]) then Trim(s[..|s| - 1])
    else s
  }

  /** What is cut off is whitespace, at the two ends only. */
  lemma {:induction false} TrimWhere(s: string) returns (i: nat, j: nat)
    ensures i <= j <= |s| && Trim(s) == s[i..j]
    ensures forall k :: 0 <= k < i || j <= k < |s| ==> IsWhitespace(s[k])
    decreases |s|
  {
    if s != [] && IsWhitespace(s[0]) {
      var t := s[1..];
      var a, b := TrimWhere(t);
      i, j := a + 1, b + 1;
      assert t[a..b] == s[i..j];
      assert forall k :: 0 < k < |s| ==> s[k] == t[k - 1];
    } else if s != [] && IsWhitespace(s[|s| - 1]) {
      var t := s[..|s| - 1];
      i, j := TrimWhere(t);
      assert t[i..j] == s[i..j];
      assert forall k :: 0 <= k < |t| ==> s[k] == t[k];
    } else {
      i, j := 0, |s|;
      assert s[i..j] == s;
    }
  }

  function TrimAll(words: seq<string>): (r: seq<string>)
    ensures |r| == |words|
  {
    if words == [] then [] else [Trim(words[0])] + TrimAll(words[1..])
  }

  /** The pieces of `s` between spaces, trimmed. */
  function Pieces(s: string): (r: seq<string>)
    ensures |r| >= 1
    decreases |s|
  {
    var n := Find(s, ' ');
    if n == |s| then [Trim(s)] else [Trim(s[..n])] + Pieces(s[n + 1..])
  }

  /** The texts with one space between each two. */
  function SpaceJoined(raw: seq<string>): string {
    if raw == [] then [] else if |raw| == 1 then raw[0] else raw[0] + " " + SpaceJoined(raw[1..])
  }

  /** The pieces are, in order and trimmed, space-free texts that joined with spaces give `s` back. */
  lemma {:induction false} PiecesAre(s: string) returns (raw: seq<string>)
    ensures Pieces(s) == TrimAll(raw) && SpaceJoined(raw) == s && raw != []
    ensures forall k :: 0 <= k < |raw| ==> ' ' !in raw[k]
    decreases |s|
  {
    hide Trim, TrimAll, SpaceJoined, Find;
    var n := Find(s, ' ');
    if n == |s| {
      raw := [s];
      OnePiece(s);
    } else {
      var rest := PiecesAre(s[n + 1..]);
      raw := [s[..n]] + rest;
      MorePieces(s[..n], rest);
      assert s == s[..n] + " " + s[n + 1..];
    }
  }

  lemma OnePiece(s: string)
    ensures TrimAll([s]) == [Trim(s)] && SpaceJoined([s]) == s
  {
    assert TrimAll([s]) == [Trim(s)] + TrimAll([]);
  }

  lemma MorePieces(s: string, rest: seq<string>)
    requires rest != []
    ensures TrimAll([s] + rest) == [Trim(s)] + TrimAll(rest) && SpaceJoined([s] + rest) == s + " " + SpaceJoined(rest)
  {
    assert ([s] + rest)[1..] == rest;
  }

  /** A wrapper splits into nothing exactly if it has no space and nothing but whitespace. */
  lemma SplitIsEmptyIff(s: string)
    ensures SplitOnSpaces(s) == [] <==> ' ' !in s && Trim(s) == ""
    ensures SplitOnSpaces(s) != [] ==> SplitOnSpaces(s) == Pieces(s)
  {
    hide Trim;
    var n := Find(s, ' ');
    if n < |s| {
      assert |Pieces(s)| == 1 + |Pieces(s[n + 1..])|;
    }
  }

  /** SplitString on spaces: nothing at all for a single empty piece. */
  function SplitOnSpaces(s: string): seq<string> {
    if Pieces(s) == [""] then [] else Pieces(s)
  }

  // ---------------------------------------------------------------------------
  // The state and its operations
  // ---------------------------------------------------------------------------

  type SwitchMap = map<string, string>

  /** `start` is not stored by the program: it is where the switch section begins,
      after the program and any wrapper put in front of it. */
  datatype State = State(argv: seq<string>, start: nat, beginArgs: nat, switches: SwitchMap)

  const FRESH := State([""], 1, 1, map[])

  /** The key under which a switch is indexed: its name without the prefix. */
  function Key(name: string): string {
    name[SwitchPrefixLength(Posix, name)..]
  }

  /** A bare name is found whichever prefix it was given with. */
  lemma PrefixesAgree(name: string)
    requires !IsSwitch(Posix, name)
    ensures Key("--" + name) == Key("-" + name) == Key(name) == name
  {
    assert ("--" + name)[2..] == name && ("-" + name)[1..] == name;
    if name != [] {
      assert name[..1] != "-";
      assert ("-" + name)[1] == name[0];
    }
  }

  /** The word stored in argv: the prefix is added if it is missing. */
  function SwitchWord(name: string, value: string): string {
    Combine(if SwitchPrefixLength(Posix, name) == 0 then "--" + name else name, value)
  }

  /** Spelled out: "--" is put in front unless the name starts with "-", and "=" and the value behind unless it is empty. */
  lemma SwitchWordIs(name: string, value: string)
    ensures SwitchWord(name, value)
            == (if name != [] && name[0] == '-' then "" else "--") + name + (if value == [] then "" else "=" + value)
  {
    PrefixIs(Posix, name);
    assert "" + name == name;
    var full := if name != [] && name[0] == '-' then name else "--" + name;
    assert full + "=" + value == full + ("=" + value) && full + "" == full;
  }

  ghost predicate Sections(st: State) {
    1 <= st.start <= st.beginArgs <= |st.argv|
  }

  function SetProgram(st: State, program: string): State
    requires |st.argv| > 0
  {
    st.(argv := st.argv[0 := Trim(program)])
  }

  function AppendSwitch(st: State, name: string, value: string): State
    requires st.beginArgs <= |st.argv|
  {
    st.(argv := st.argv[..st.beginArgs] + [SwitchWord(name, value)] + st.argv[st.beginArgs..],
        beginArgs := st.beginArgs + 1,
        switches := st.switches[Key(name) := value])
  }

  function AppendArg(st: State, value: string): State {
    st.(argv := st.argv + [value])
  }

  /** One trimmed word: a switch if switches are still being parsed, an argument otherwise. */
  function AppendWord(st: State, arg: string, parse: bool): (r: State)
    requires Sections(st)
    ensures Sections(r)
  {
    if parse && IsSwitch(Posix, arg) then AppendSwitch(st, SwitchString(arg), SwitchValue(arg))
    else AppendArg(st, arg)
  }

  /** AppendSwitchesAndArguments on the words after the program. */
  function AppendWords(st: State, words: seq<string>, parseSwitches: bool): (r: State)
    requires Sections(st)
    ensures Sections(r)
    decreases |words|
  {
    if words == [] then st
    else
      var arg := Trim(words[0]);
      var parse := parseSwitches && arg != SWITCH_TERMINATOR;
      AppendWords(AppendWord(st, arg, parse), words[1..], parse)
  }

  /** `rounds` rounds of the loop when it reads the very argv it appends to, from word i on. */
  function OwnRounds(st: State, i: nat, parseSwitches: bool, rounds: nat): (r: State)
    requires Sections(st)
    ensures Sections(r)
    decreases rounds
  {
    if rounds == 0 || i >= |st.argv| then st
    else
      var arg := Trim(st.argv[i]);
      var parse := parseSwitches && arg != SWITCH_TERMINATOR;
      OwnRounds(AppendWord(st, arg, parse), i + 1, parse, rounds - 1)
  }

  /** Appending a command line to itself: each round adds a word, so if there is a word after the
      program, there is one left to read after any number of rounds. */
  lemma {:induction false} OwnRoundsNeverEnd(st: State, i: nat, parseSwitches: bool, rounds: nat)
    requires Sections(st) && i < |st.argv|
    ensures |OwnRounds(st, i, parseSwitches, rounds).argv| == |st.argv| + rounds > i + rounds
    decreases rounds
  {
    if rounds > 0 {
      var arg := Trim(st.argv[i]);
      var parse := parseSwitches && arg != SWITCH_TERMINATOR;
      OwnRoundsNeverEnd(AppendWord(st, arg, parse), i + 1, parse, rounds - 1);
    }
  }

  function AppendArguments(st: State, other: seq<string>, includeProgram: bool): State
    requires Sections(st)
  {
    var st' := if includeProgram then SetProgram(st, if other == [] then "" else other[0]) else st;
    AppendWords(st', if other == [] then [] else other[1..], true)
  }

  function CopySwitches(st: State, source: SwitchMap, names: seq<string>): (r: State)
    requires Sections(st)
    ensures Sections(r)
    decreases |names|
  {
    if names == [] then st
    else
      var st' := if names[0] in source then AppendSwitch(st, names[0], source[names[0]]) else st;
      CopySwitches(st', source, names[1..])
  }

  /** The same with the command line itself as the source, whose index grows on the way. */
  function CopyOwn(st: State, names: seq<string>): (r: State)
    requires Sections(st)
    ensures Sections(r)
    decreases |names|
  {
    if names == [] then st
    else CopyOwn(if names[0] in st.switches then AppendSwitch(st, names[0], st.switches[names[0]]) else st, names[1..])
  }

  lemma CopyOwnStep(st: State, names: seq<string>, i: nat)
    requires Sections(st) && i <= |names|
    ensures CopyOwn(st, names[i..])
            == if i == |names| then st
               else if names[i] in st.switches then CopyOwn(AppendSwitch(st, names[i], st.switches[names[i]]), names[i + 1..])
               else CopyOwn(st, names[i + 1..])
  {
    if i < |names| {
      assert names[i..][0] == names[i] && names[i..][1..] == names[i + 1..];
    }
  }

  lemma CopySwitchesStep(st: State, source: SwitchMap, names: seq<string>, i: nat)
    requires Sections(st) && i <= |names|
    ensures CopySwitches(st, source, names[i..])
            == if i == |names| then st
               else if names[i] in source then CopySwitches(AppendSwitch(st, names[i], source[names[i]]), source, names[i + 1..])
               else CopySwitches(st, source, names[i + 1..])
  {
    if i < |names| {
      assert names[i..][0] == names[i] && names[i..][1..] == names[i + 1..];
    }
  }

  /** The words stored for the names that the source has. */
  function CopiedWords(source: SwitchMap, names: seq<string>): seq<string> {
    if names == [] then []
    else (if names[0] in source then [SwitchWord(names[0], source[names[0]])] else []) + CopiedWords(source, names[1..])
  }

  /** Copying inserts exactly those words at the divider, in order. */
  lemma {:induction false} CopySwitchesShape(st: State, source: SwitchMap, names: seq<string>)
    requires Sections(st)
    ensures var r, w, b := CopySwitches(st, source, names), CopiedWords(source, names), st.beginArgs;
            r.argv == st.argv[..b] + w + st.argv[b..] && r.beginArgs == b + |w| && r.start == st.start
    decreases |names|
  {
    hide SwitchWord, Key;
    var b := st.beginArgs;
    if names == [] {
      assert st.argv == st.argv[..b] + [] + st.argv[b..];
    } else if names[0] in source {
      var word := SwitchWord(names[0], source[names[0]]);
      var st' := AppendSwitch(st, names[0], source[names[0]]);
      CopySwitchesShape(st', source, names[1..]);
      InsertMore(st.argv, b, word, CopiedWords(source, names[1..]));
    } else {
      CopySwitchesShape(st, source, names[1..]);
      assert [] + CopiedWords(source, names[1..]) == CopiedWords(source, names[1..]);
    }
  }

  lemma InsertMore(argv: seq<string>, b: nat, word: string, more: seq<string>)
    requires b <= |argv|
    ensures var argv' := argv[..b] + [word] + argv[b..];
            argv'[..b + 1] + more + argv'[b + 1..] == argv[..b] + ([word] + more) + argv[b..]
  {
  }

  /** One of the names has this key and is in the source. */
  predicate CopiesKey(source: SwitchMap, names: seq<string>, k: string) {
    exists i :: 0 <= i < |names| && names[i] in source && Key(names[i]) == k
  }

  /** Exactly the keys of the copied names are added to the index. */
  lemma {:induction false} CopiedKeys(st: State, source: SwitchMap, names: seq<string>, k: string)
    requires Sections(st)
    ensures k in CopySwitches(st, source, names).switches <==> k in st.switches || CopiesKey(source, names, k)
    decreases |names|
  {
    hide SwitchWord, Key, CopiesKey;
    CopiesKeyStep(source, names, k);
    if names != [] {
      CopiedKeys(if names[0] in source then AppendSwitch(st, names[0], source[names[0]]) else st, source, names[1..], k);
    }
  }

  lemma CopiesKeyStep(source: SwitchMap, names: seq<string>, k: string)
    ensures CopiesKey(source, names, k)
            <==> names != [] && ((names[0] in source && Key(names[0]) == k) || CopiesKey(source, names[1..], k))
  {
    hide Key;
    if i :| 0 <= i < |names| && names[i] in source && Key(names[i]) == k {
      assert i > 0 ==> names[1..][i - 1] == names[i];
    }
    if names != [] && CopiesKey(source, names[1..], k) {
      var i :| 0 <= i < |names[1..]| && names[1..][i] in source && Key(names[1..][i]) == k;
      assert names[i + 1] == names[1..][i];
    }
  }

  /** The value found afterwards under the key of a copied name is the source's, if no later name has the same key. */
  lemma {:induction false} CopiedValue(st: State, source: SwitchMap, names: seq<string>, i: nat)
    requires Sections(st) && i < |names| && names[i] in source
    requires forall j :: i < j < |names| ==> Key(names[j]) != Key(names[i])
    ensures var r := CopySwitches(st, source, names);
            Key(names[i]) in r.switches && r.switches[Key(names[i])] == source[names[i]]
    decreases |names|
  {
    hide SwitchWord, Key;
    var st' := if names[0] in source then AppendSwitch(st, names[0], source[names[0]]) else st;
    if i > 0 {
      CopiedValue(st', source, names[1..], i - 1);
    } else {
      OtherKeysKept(st', source, names[1..], Key(names[0]));
    }
  }

  lemma {:induction false} OtherKeysKept(st: State, source: SwitchMap, names: seq<string>, k: string)
    requires Sections(st) && forall j :: 0 <= j < |names| ==> Key(names[j]) != k
    ensures var r := CopySwitches(st, source, names);
            (k in r.switches <==> k in st.switches) && (k in r.switches ==> r.switches[k] == st.switches[k])
    decreases |names|
  {
    hide SwitchWord, Key;
    if names != [] {
      var st' := if names[0] in source then AppendSwitch(st, names[0], source[names[0]]) else st;
      assert Key(names[0]) != k;
      OtherKeysKept(st', source, names[1..], k);
    }
  }

  /** Copying from itself by bare names is copying from the index as it was. */
  lemma {:induction false} CopyOwnIsCopy(st: State, names: seq<string>)
    requires Sections(st) && forall i :: 0 <= i < |names| ==> Key(names[i]) == names[i]
    ensures CopyOwn(st, names) == CopySwitches(st, st.switches, names)
    decreases |names|
  {
    hide SwitchWord, Key;
    if names != [] {
      assert Key(names[0]) == names[0];
      var st' := if names[0] in st.switches then AppendSwitch(st, names[0], st.switches[names[0]]) else st;
      assert st'.switches == st.switches;
      CopyOwnIsCopy(st', names[1..]);
    }
  }

  function PrependWrapper(st: State, wrapper: seq<string>): State {
    st.(argv := wrapper + st.argv, start := st.start + |wrapper|, beginArgs := st.beginArgs + |wrapper|)
  }

  /** InitFromArgv on a fresh object. */
  function Init(argv: seq<string>): State {
    AppendArguments(FRESH, argv, true)
  }

  /** GetArgs: everything after the last switch, without the first terminator. */
  function Args(st: State): seq<string>
    requires st.beginArgs <= |st.argv|
  {
    WithoutTerminator(st.argv[st.beginArgs..])
  }

  function WithoutTerminator(args: seq<string>): seq<string> {
    if args == [] then []
    else if args[0] == SWITCH_TERMINATOR then args[1..]
    else [args[0]] + WithoutTerminator(args[1..])
  }

  // ---------------------------------------------------------------------------
  // The index agrees with the switch section
  // ---------------------------------------------------------------------------

  /** The index read off a list of switch words: the last one with a given key wins. */
  function Reparse(section: seq<string>): SwitchMap {
    if section == [] then map[]
    else
      var word := section[|section| - 1];
      Reparse(section[..|section| - 1])[WordKey(word) := SwitchValue(word)]
  }

  /** The key a stored switch word stands for. */
  function WordKey(word: string): string {
    Key(SwitchString(word))
  }

  lemma WordKeyHasNoEquals(word: string)
    ensures '=' !in WordKey(word)
  {
    assert forall i :: 0 <= i < |SwitchString(word)| ==> SwitchString(word)[i] != '=';
  }

  lemma {:induction false} ReparseKeys(section: seq<string>)
    ensures forall k :: k in Reparse(section) ==> '=' !in k
  {
    if section != [] {
      ReparseKeys(section[..|section| - 1]);
      WordKeyHasNoEquals(section[|section| - 1]);
    }
  }

  function Section(st: State): seq<string>
    requires Sections(st)
  {
    st.argv[st.start..st.beginArgs]
  }

  ghost predicate Indexed(st: State) {
    Sections(st) && st.switches == Reparse(Section(st))
  }

  lemma ReparsePush(section: seq<string>, word: string)
    ensures Reparse(section + [word]) == Reparse(section)[WordKey(word) := SwitchValue(word)]
  {
    assert (section + [word])[..|section|] == section;
  }

  /** A switch name without "=" is read back from the word stored for it. */
  lemma SwitchWordParses(name: string, value: string)
    requires '=' !in name
    ensures SwitchString(SwitchWord(name, value)) == (if SwitchPrefixLength(Posix, name) == 0 then "--" + name else name)
    ensures WordKey(SwitchWord(name, value)) == Key(name)
    ensures SwitchValue(SwitchWord(name, value)) == value
  {
    var full := if SwitchPrefixLength(Posix, name) == 0 then "--" + name else name;
    SplitCombine(full, value);
  }

  lemma AppendSwitchSection(st: State, name: string, value: string)
    requires Sections(st)
    ensures Section(AppendSwitch(st, name, value)) == Section(st) + [SwitchWord(name, value)]
  {
  }

  /** Appending a switch keeps the index in step exactly when its name has no "=". */
  lemma AppendSwitchIndexed(st: State, name: string, value: string)
    requires Indexed(st)
    ensures Indexed(AppendSwitch(st, name, value)) <==> '=' !in name
  {
    hide Reparse, SwitchWord, WordKey, SwitchValue;
    var st' := AppendSwitch(st, name, value);
    AppendSwitchSection(st, name, value);
    if '=' !in name {
      SwitchWordParses(name, value);
      ReparsePush(Section(st), SwitchWord(name, value));
    } else {
      PollutedSwitch(st, name, value);
      PollutedNotIndexed(st');
    }
  }

  /** A key with "=" in it: no word of argv can stand for it, and it is never removed. */
  predicate Polluted(st: State) {
    exists k :: k in st.switches && '=' in k
  }

  lemma PollutedNotIndexed(st: State)
    requires Polluted(st)
    ensures !Indexed(st)
  {
    if Sections(st) {
      ReparseKeys(Section(st));
    }
  }

  lemma PollutedSwitch(st: State, name: string, value: string)
    requires st.beginArgs <= |st.argv|
    ensures Polluted(AppendSwitch(st, name, value)) <==> Polluted(st) || '=' in name
  {
    var st' := AppendSwitch(st, name, value);
    if '=' in name {
      var i :| 0 <= i < |name| && name[i] == '=';
      var n := SwitchPrefixLength(Posix, name);
      assert Key(name)[i - n] == '=';
      assert Key(name) in st'.switches;
    } else {
      assert '=' !in Key(name);
    }
    assert forall k :: k in st.switches ==> k in st'.switches;
  }

  lemma {:induction false} PollutedWords(st: State, words: seq<string>, parseSwitches: bool)
    requires Sections(st) && Polluted(st)
    ensures Polluted(AppendWords(st, words, parseSwitches))
    decreases |words|
  {
    hide Polluted, AppendSwitch;
    if words != [] {
      var arg := Trim(words[0]);
      var parse := parseSwitches && arg != SWITCH_TERMINATOR;
      PollutedSwitch(st, SwitchString(arg), SwitchValue(arg));
      PollutedArg(st, arg);
      PollutedWords(AppendWord(st, arg, parse), words[1..], parse);
    }
  }

  lemma PollutedArg(st: State, value: string)
    ensures Polluted(AppendArg(st, value)) <==> Polluted(st)
  {
  }

  lemma {:induction false} PollutedCopies(st: State, source: SwitchMap, names: seq<string>)
    requires Sections(st) && Polluted(st)
    ensures Polluted(CopySwitches(st, source, names))
    decreases |names|
  {
    hide Polluted, AppendSwitch;
    if names != [] {
      if names[0] in source {
        PollutedSwitch(st, names[0], source[names[0]]);
      }
      var st' := if names[0] in source then AppendSwitch(st, names[0], source[names[0]]) else st;
      assert Sections(st') by {
        AppendSwitchSections(st, names[0], if names[0] in source then source[names[0]] else "");
      }
      PollutedCopies(st', source, names[1..]);
    }
  }

  lemma AppendSwitchSections(st: State, name: string, value: string)
    requires Sections(st)
    ensures Sections(AppendSwitch(st, name, value))
  {
  }

  lemma AppendArgIndexed(st: State, value: string)
    requires Indexed(st)
    ensures Indexed(AppendArg(st, value))
  {
    hide Reparse;
    assert Section(AppendArg(st, value)) == Section(st);
  }

  lemma SetProgramIndexed(st: State, program: string)
    requires Indexed(st)
    ensures Indexed(SetProgram(st, program))
  {
    hide Reparse;
    assert Section(SetProgram(st, program)) == Section(st);
  }

  lemma PrependWrapperIndexed(st: State, wrapper: seq<string>)
    requires Indexed(st)
    ensures Indexed(PrependWrapper(st, wrapper))
  {
    hide Reparse;
    assert Section(PrependWrapper(st, wrapper)) == Section(st);
  }

  lemma AppendWordIndexed(st: State, arg: string, parse: bool)
    requires Indexed(st)
    ensures Indexed(AppendWord(st, arg, parse))
  {
    AppendSwitchIndexed(st, SwitchString(arg), SwitchValue(arg));
    AppendArgIndexed(st, arg);
  }

  lemma {:induction false} AppendWordsIndexed(st: State, words: seq<string>, parseSwitches: bool)
    requires Indexed(st)
    ensures Indexed(AppendWords(st, words, parseSwitches))
    decreases |words|
  {
    if words != [] {
      var arg := Trim(words[0]);
      var parse := parseSwitches && arg != SWITCH_TERMINATOR;
      AppendWordIndexed(st, arg, parse);
      AppendWordsIndexed(AppendWord(st, arg, parse), words[1..], parse);
    }
  }

  /** No name that is copied has a "=". */
  predicate CleanCopies(source: SwitchMap, names: seq<string>) {
    forall i :: 0 <= i < |names| && names[i] in source ==> '=' !in names[i]
  }

  /** Copying switches keeps the index in step exactly when no copied name has a "=". */
  lemma {:induction false} CopySwitchesIndexed(st: State, source: SwitchMap, names: seq<string>)
    requires Indexed(st)
    ensures Indexed(CopySwitches(st, source, names)) <==> CleanCopies(source, names)
    decreases |names|
  {
    hide Indexed, Polluted, AppendSwitch;
    if names != [] {
      assert CleanCopies(source, names) <==> (names[0] in source ==> '=' !in names[0]) && CleanCopies(source, names[1..]);
      assert Sections(st) by { IndexedSections(st); }
      var st' := if names[0] in source then AppendSwitch(st, names[0], source[names[0]]) else st;
      if names[0] in source {
        AppendSwitchIndexed(st, names[0], source[names[0]]);
        AppendSwitchSections(st, names[0], source[names[0]]);
        PollutedSwitch(st, names[0], source[names[0]]);
      }
      if names[0] in source && '=' in names[0] {
        PollutedCopies(st', source, names[1..]);
        PollutedNotIndexed(CopySwitches(st, source, names));
      } else {
        CopySwitchesIndexed(st', source, names[1..]);
      }
    }
  }

  lemma IndexedSections(st: State)
    requires Indexed(st)
    ensures Sections(st)
  {
  }

  /** Copying a command line's own switches keeps the index in step, whatever names are asked for. */
  lemma {:induction false} CopyOwnIndexed(st: State, names: seq<string>)
    requires Indexed(st)
    ensures Indexed(CopyOwn(st, names))
    decreases |names|
  {
    if names != [] {
      ReparseKeys(Section(st));
      if names[0] in st.switches {
        AppendSwitchIndexed(st, names[0], st.switches[names[0]]);
        CopyOwnIndexed(AppendSwitch(st, names[0], st.switches[names[0]]), names[1..]);
      } else {
        CopyOwnIndexed(st, names[1..]);
      }
    }
  }

  lemma {:induction false} PollutedOwn(st: State, names: seq<string>)
    requires Sections(st) && Polluted(st)
    ensures Polluted(CopyOwn(st, names))
    decreases |names|
  {
    hide Polluted, AppendSwitch;
    if names != [] {
      if names[0] in st.switches {
        PollutedSwitch(st, names[0], st.switches[names[0]]);
        AppendSwitchSections(st, names[0], st.switches[names[0]]);
        PollutedOwn(AppendSwitch(st, names[0], st.switches[names[0]]), names[1..]);
      } else {
        PollutedOwn(st, names[1..]);
      }
    }
  }

  /** Copying from a command line that is itself indexed is always clean, whatever names are asked for. */
  lemma CopiesFromIndexed(source: State, names: seq<string>)
    requires Indexed(source)
    ensures CleanCopies(source.switches, names)
  {
    ReparseKeys(Section(source));
  }

  // Runs ---------------------------------------------------------------------------

  datatype Op =
    | OpSetProgram(program: string)
    | OpAppendSwitch(name: string, value: string)
    | OpAppendArg(value: string)
    | OpAppendArguments(other: seq<string>, includeProgram: bool)
    | OpCopySwitches(source: SwitchMap, names: seq<string>)
    | OpCopyOwn(names: seq<string>)
    | OpPrependWrapper(wrapper: seq<string>)

  /** Switch names added on behalf of the caller have no "=". */
  predicate Sane(op: Op) {
    match op
    case OpAppendSwitch(name, _) => '=' !in name
    case OpCopySwitches(source, names) => CleanCopies(source, names)
    case _ => true
  }

  function Apply(st: State, op: Op): (r: State)
    requires Sections(st)
    ensures Sections(r)
  {
    match op
    case OpSetProgram(program) => SetProgram(st, program)
    case OpAppendSwitch(name, value) => AppendSwitch(st, name, value)
    case OpAppendArg(value) => AppendArg(st, value)
    case OpAppendArguments(other, includeProgram) => AppendArguments(st, other, includeProgram)
    case OpCopySwitches(source, names) => CopySwitches(st, source, names)
    case OpCopyOwn(names) => CopyOwn(st, names)
    case OpPrependWrapper(wrapper) => PrependWrapper(st, wrapper)
  }

  function Run(st: State, ops: seq<Op>): State
    requires Sections(st)
    decreases |ops|
  {
    if ops == [] then st else Run(Apply(st, ops[0]), ops[1..])
  }

  /** An operation keeps the index in step exactly when it is sane. */
  lemma ApplyIndexed(st: State, op: Op)
    requires Indexed(st)
    ensures Indexed(Apply(st, op)) <==> Sane(op)
  {
    hide AppendSwitch, AppendWords, CopySwitches, CopyOwn, CleanCopies;
    match op
    case OpSetProgram(program) => SetProgramIndexed(st, program);
    case OpAppendSwitch(name, value) => AppendSwitchIndexed(st, name, value);
    case OpAppendArg(value) => AppendArgIndexed(st, value);
    case OpAppendArguments(other, includeProgram) =>
      var st' := if includeProgram then SetProgram(st, if other == [] then "" else other[0]) else st;
      SetProgramIndexed(st, if other == [] then "" else other[0]);
      AppendWordsIndexed(st', if other == [] then [] else other[1..], true);
    case OpCopySwitches(source, names) => CopySwitchesIndexed(st, source, names);
    case OpCopyOwn(names) => CopyOwnIndexed(st, names);
    case OpPrependWrapper(wrapper) => PrependWrapperIndexed(st, wrapper);
  }

  /** No later operation repairs a polluted index, and an insane one pollutes it. */
  lemma ApplyPolluted(st: State, op: Op)
    requires Sections(st) && Polluted(st)
    ensures Polluted(Apply(st, op))
  {
    hide AppendSwitch, AppendWords, CopySwitches, CopyOwn;
    match op
    case OpAppendSwitch(name, value) => PollutedSwitch(st, name, value);
    case OpAppendArguments(other, includeProgram) =>
      var st' := if includeProgram then SetProgram(st, if other == [] then "" else other[0]) else st;
      PollutedWords(st', if other == [] then [] else other[1..], true);
    case OpCopySwitches(source, names) => PollutedCopies(st, source, names);
    case OpCopyOwn(names) => PollutedOwn(st, names);
    case _ =>
  }

  lemma {:induction false} InsanePollutes(st: State, op: Op)
    requires Sections(st) && !Sane(op)
    ensures Polluted(Apply(st, op))
  {
    hide AppendSwitch, Polluted;
    match op
    case OpAppendSwitch(name, value) => PollutedSwitch(st, name, value);
    case OpCopySwitches(source, names) => DirtyCopies(st, source, names);
  }

  lemma {:induction false} DirtyCopies(st: State, source: SwitchMap, names: seq<string>)
    requires Sections(st) && !CleanCopies(source, names)
    ensures Polluted(CopySwitches(st, source, names))
    decreases |names|
  {
    hide AppendSwitch, Polluted;
    var st' := if names[0] in source then AppendSwitch(st, names[0], source[names[0]]) else st;
    if names[0] in source {
      PollutedSwitch(st, names[0], source[names[0]]);
      AppendSwitchSections(st, names[0], source[names[0]]);
    }
    if names[0] in source && '=' in names[0] {
      PollutedCopies(st', source, names[1..]);
    } else {
      DirtyCopies(st', source, names[1..]);
    }
  }

  lemma {:induction false} RunPolluted(st: State, ops: seq<Op>)
    requires Sections(st) && Polluted(st)
    ensures Polluted(Run(st, ops))
    decreases |ops|
  {
    hide Polluted, Apply;
    if ops != [] {
      ApplyPolluted(st, ops[0]);
      RunPolluted(Apply(st, ops[0]), ops[1..]);
    }
  }

  predicate AllSane(ops: seq<Op>) {
    forall i :: 0 <= i < |ops| ==> Sane(ops[i])
  }

  /** After any run of operations, the index is what a scan of the switch section finds
      exactly when no operation of the run added a switch name with "=". */
  lemma {:induction false} RunIndexed(st: State, ops: seq<Op>)
    requires Indexed(st)
    ensures Indexed(Run(st, ops)) <==> AllSane(ops)
    decreases |ops|
  {
    hide Polluted, Apply, Sane, Indexed;
    if ops != [] {
      IndexedSections(st);
      assert AllSane(ops) <==> Sane(ops[0]) && AllSane(ops[1..]);
      ApplyIndexed(st, ops[0]);
      if Sane(ops[0]) {
        RunIndexed(Apply(st, ops[0]), ops[1..]);
      } else {
        InsanePollutes(st, ops[0]);
        RunPolluted(Apply(st, ops[0]), ops[1..]);
        PollutedNotIndexed(Run(st, ops));
      }
    }
  }

  /** What a lookup finds, said without the index: the last word of the section with that key. */
  lemma {:induction false} ReparseLookup(section: seq<string>, key: string)
    ensures key in Reparse(section) <==> exists i :: 0 <= i < |section| && WordKey(section[i]) == key
    ensures forall i :: 0 <= i < |section| && WordKey(section[i]) == key
              && (forall j :: i < j < |section| ==> WordKey(section[j]) != key)
              ==> key in Reparse(section) && Reparse(section)[key] == SwitchValue(section[i])
  {
    hide WordKey, SwitchValue;
    if section != [] {
      var n := |section| - 1;
      var front := section[..n];
      ReparseLookup(front, key);
      assert forall i :: 0 <= i < n ==> front[i] == section[i];
    }
  }
}
