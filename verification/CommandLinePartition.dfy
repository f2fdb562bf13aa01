/**
 What InitFromArgv does to an argument vector: a stable partition into switches
 and arguments, and when parsing the result again reproduces it.
 */
module CommandLinePartition {
  import opened CommandLineSyntax
  import opened CommandLineState

  /** A switch as it is stored: an explicit empty value is dropped. */
  function Canon(w: string): string {
    Combine(SwitchString(w), SwitchValue(w))
  }

  function CanonAll(words: seq<string>): (r: seq<string>)
    ensures |r| == |words|
  {
    if words == [] then [] else [Canon(words[0])] + CanonAll(words[1..])
  }

  // The reference: cut at the first terminator, then filter -------------------------

  /** The words before the first terminator. */
  function Before(words: seq<string>): (r: seq<string>)
    ensures "--" !in r
  {
    if words == [] || words[0] == "--" then [] else [words[0]] + Before(words[1..])
  }

  /** The first terminator and everything after it. */
  function From(words: seq<string>): (r: seq<string>)
    ensures r == [] || r[0] == "--"
  {
    if words == [] || words[0] == "--" then words else From(words[1..])
  }

  lemma {:induction false} CutHere(words: seq<string>)
    ensures Before(words) + From(words) == words
  {
    if words != [] && words[0] != SWITCH_TERMINATOR {
      CutHere(words[1..]);
      assert words == [words[0]] + words[1..];
    }
  }

  function SwitchesOf(words: seq<string>): seq<string> {
    if words == [] then []
    else if IsSwitch(Posix, words[0]) then [words[0]] + SwitchesOf(words[1..])
    else SwitchesOf(words[1..])
  }

  function PlainOf(words: seq<string>): seq<string> {
    if words == [] then []
    else if IsSwitch(Posix, words[0]) then PlainOf(words[1..])
    else [words[0]] + PlainOf(words[1..])
  }

  /** A single word is a switch exactly if it starts with "-". */
  lemma FilterOne(w: string)
    ensures w != [] && w[0] == '-' ==> SwitchesOf([w]) == [w] && PlainOf([w]) == []
    ensures w == [] || w[0] != '-' ==> SwitchesOf([w]) == [] && PlainOf([w]) == [w]
  {
    PrefixIs(Posix, w);
    assert SwitchesOf([w]) == if IsSwitch(Posix, w) then [w] + SwitchesOf([]) else SwitchesOf([]);
    assert PlainOf([w]) == if IsSwitch(Posix, w) then PlainOf([]) else [w] + PlainOf([]);
  }

  /** Both filters take a list part by part, so they keep the order and lose nothing. */
  lemma {:induction false} FilterConcat(a: seq<string>, b: seq<string>)
    ensures SwitchesOf(a + b) == SwitchesOf(a) + SwitchesOf(b) && PlainOf(a + b) == PlainOf(a) + PlainOf(b)
  {
    hide IsSwitch;
    if a == [] {
      assert a + b == b;
    } else {
      FilterConcat(a[1..], b);
      assert (a + b)[1..] == a[1..] + b && (a + b)[0] == a[0];
    }
  }

  /** The trimmed switches before the first terminator, in order. */
  function LeadingSwitches(words: seq<string>): seq<string> {
    SwitchesOf(Before(TrimAll(words)))
  }

  /** All other trimmed words, in order. */
  function OtherWords(words: seq<string>): seq<string> {
    PlainOf(Before(TrimAll(words))) + From(TrimAll(words))
  }

  // The loop, read as two lists ------------------------------------------------------

  /** The words the loop stores as switches. */
  function SwitchesFound(t: seq<string>, parseSwitches: bool): seq<string> {
    if t == [] then []
    else
      var parse := parseSwitches && t[0] != SWITCH_TERMINATOR;
      if parse && IsSwitch(Posix, t[0]) then [Canon(t[0])] + SwitchesFound(t[1..], parse) else SwitchesFound(t[1..], parse)
  }

  /** The words the loop adds at the end. */
  function OthersFound(t: seq<string>, parseSwitches: bool): seq<string> {
    if t == [] then []
    else
      var parse := parseSwitches && t[0] != SWITCH_TERMINATOR;
      if parse && IsSwitch(Posix, t[0]) then OthersFound(t[1..], parse) else [t[0]] + OthersFound(t[1..], parse)
  }

  lemma {:induction false} NoMoreSwitches(t: seq<string>)
    ensures SwitchesFound(t, false) == [] && OthersFound(t, false) == t
  {
    if t != [] {
      NoMoreSwitches(t[1..]);
    }
  }

  lemma {:induction false} LoopIsPartition(t: seq<string>)
    ensures SwitchesFound(t, true) == CanonAll(SwitchesOf(Before(t))) && OthersFound(t, true) == PlainOf(Before(t)) + From(t)
  {
    hide Canon, IsSwitch;
    if t == [] {
    } else if t[0] == SWITCH_TERMINATOR {
      NoMoreSwitches(t[1..]);
      assert t == [t[0]] + t[1..];
    } else {
      LoopIsPartition(t[1..]);
      FilterStep(t[0], Before(t[1..]));
      hide SwitchesOf, PlainOf, CanonAll;
    }
  }

  lemma FilterStep(w: string, rest: seq<string>)
    ensures CanonAll(SwitchesOf([w] + rest))
            == if IsSwitch(Posix, w) then [Canon(w)] + CanonAll(SwitchesOf(rest)) else CanonAll(SwitchesOf(rest))
    ensures PlainOf([w] + rest) == if IsSwitch(Posix, w) then PlainOf(rest) else [w] + PlainOf(rest)
  {
    hide Canon, IsSwitch;
    assert ([w] + rest)[1..] == rest;
    if IsSwitch(Posix, w) {
      assert ([w] + SwitchesOf(rest))[1..] == SwitchesOf(rest);
    }
  }

  lemma SwitchFront(w: string)
    requires IsSwitch(Posix, w)
    ensures w != [] && w[0] == '-' && SwitchString(w) != [] && SwitchString(w)[0] == '-'
    ensures IsSwitch(Posix, Canon(w)) && Canon(w) != [] && Canon(w)[0] == '-'
    ensures SwitchWord(SwitchString(w), SwitchValue(w)) == Canon(w)
  {
    assert w[0] == '-';
    assert Find(w, '=') > 0;
  }

  /** The loop inserts switches at the divider and adds everything else at the end. */
  lemma {:induction false} AppendWordsShape(st: State, words: seq<string>, parseSwitches: bool)
    requires Sections(st)
    ensures var r, t, b := AppendWords(st, words, parseSwitches), TrimAll(words), st.beginArgs;
            && r.argv == st.argv[..b] + SwitchesFound(t, parseSwitches) + st.argv[b..] + OthersFound(t, parseSwitches)
            && r.beginArgs == b + |SwitchesFound(t, parseSwitches)|
            && r.start == st.start
    decreases |words|
  {
    hide Canon, IsSwitch, SwitchWord, SwitchString, SwitchValue;
    if words == [] {
      assert st.argv == st.argv[..st.beginArgs] + [] + st.argv[st.beginArgs..] + [];
    } else {
      var t, b := TrimAll(words), st.beginArgs;
      var parse := parseSwitches && t[0] != SWITCH_TERMINATOR;
      var st' := AppendWord(st, t[0], parse);
      AppendWordsShape(st', words[1..], parse);
      assert t[0] == Trim(words[0]) && t[1..] == TrimAll(words[1..]);
      assert AppendWords(st, words, parseSwitches) == AppendWords(st', words[1..], parse);
      hide TrimAll, AppendWords;
      AppendWordShape(st, t, parseSwitches);
    }
  }

  lemma AppendWordShape(st: State, t: seq<string>, parseSwitches: bool)
    requires Sections(st) && t != []
    ensures var parse := parseSwitches && t[0] != SWITCH_TERMINATOR;
            var st', b := AppendWord(st, t[0], parse), st.beginArgs;
            var b', sw, ot := st'.beginArgs, SwitchesFound(t[1..], parse), OthersFound(t[1..], parse);
            && st'.argv[..b'] + sw + st'.argv[b'..] + ot
               == st.argv[..b] + SwitchesFound(t, parseSwitches) + st.argv[b..] + OthersFound(t, parseSwitches)
            && b' + |sw| == b + |SwitchesFound(t, parseSwitches)|
            && st'.start == st.start
  {
    hide Canon, IsSwitch, SwitchWord, SwitchString, SwitchValue;
    var parse := parseSwitches && t[0] != SWITCH_TERMINATOR;
    var b, sw, ot := st.beginArgs, SwitchesFound(t[1..], parse), OthersFound(t[1..], parse);
    if parse && IsSwitch(Posix, t[0]) {
      SwitchFront(t[0]);
      assert SwitchesFound(t, parseSwitches) == [Canon(t[0])] + sw && OthersFound(t, parseSwitches) == ot;
      hide SwitchesFound, OthersFound;
      ShapeSwitch(st.argv, b, Canon(t[0]), sw, ot);
    } else {
      assert SwitchesFound(t, parseSwitches) == sw && OthersFound(t, parseSwitches) == [t[0]] + ot;
      hide SwitchesFound, OthersFound;
      ShapeArg(st.argv, b, t[0], sw, ot);
    }
  }

  lemma ShapeSwitch(argv: seq<string>, b: nat, w: string, sw: seq<string>, ot: seq<string>)
    requires b <= |argv|
    ensures var argv' := argv[..b] + [w] + argv[b..];
            argv'[..b + 1] + sw + argv'[b + 1..] + ot == argv[..b] + ([w] + sw) + argv[b..] + ot
  {
  }

  lemma ShapeArg(argv: seq<string>, b: nat, w: string, sw: seq<string>, ot: seq<string>)
    requires b <= |argv|
    ensures var argv' := argv + [w];
            argv'[..b] + sw + argv'[b..] + ot == argv[..b] + sw + argv[b..] + ([w] + ot)
  {
    var argv' := argv + [w];
    assert argv'[..b] == argv[..b] && argv'[b..] == argv[b..] + [w];
  }

  /** Appending another command line: the program is kept unless it is to be replaced, the other's leading
      switches go to the divider and its other words to the end, each in order. */
  lemma AppendArgumentsShape(st: State, other: seq<string>, includeProgram: bool)
    requires Sections(st) && other != []
    ensures var r, b, words := AppendArguments(st, other, includeProgram), st.beginArgs, other[1..];
            && r.argv == [if includeProgram then Trim(other[0]) else st.argv[0]] + st.argv[1..b]
                         + CanonAll(LeadingSwitches(words)) + st.argv[b..] + OtherWords(words)
            && r.beginArgs == b + |LeadingSwitches(words)| && r.start == st.start
  {
    hide SwitchesFound, OthersFound, TrimAll, Before, From, SwitchesOf, PlainOf, CanonAll, AppendWords, Trim;
    var st' := if includeProgram then SetProgram(st, other[0]) else st;
    var b := st.beginArgs;
    AppendWordsShape(st', other[1..], true);
    LoopIsPartition(TrimAll(other[1..]));
    CanonLength(LeadingSwitches(other[1..]));
    assert st'.argv[..b] == [st'.argv[0]] + st.argv[1..b] && st'.argv[b..] == st.argv[b..];
  }

  function ProgramOf(argv: seq<string>): string {
    if argv == [] then "" else Trim(argv[0])
  }

  function WordsOf(argv: seq<string>): seq<string> {
    if argv == [] then [] else argv[1..]
  }

  lemma InitShape(argv: seq<string>)
    ensures var st, t := Init(argv), TrimAll(WordsOf(argv));
            && st.argv == [ProgramOf(argv)] + SwitchesFound(t, true) + OthersFound(t, true)
            && st.start == 1 && st.beginArgs == 1 + |SwitchesFound(t, true)|
            && Indexed(st)
  {
    hide SwitchesFound, OthersFound, Trim, AppendWords, TrimAll, Indexed;
    InitIndexed(argv);
    var st0 := SetProgram(FRESH, if argv == [] then "" else argv[0]);
    TrimNone();
    AppendWordsShape(st0, WordsOf(argv), true);
    assert st0.argv == [ProgramOf(argv)];
    assert st0.argv[..1] == [ProgramOf(argv)] && st0.argv[1..] == [];
  }

  lemma InitIndexed(argv: seq<string>)
    ensures Indexed(Init(argv))
  {
    hide Trim, AppendWords, Reparse;
    ReparseNone();
    assert Section(FRESH) == [];
    ApplyIndexed(FRESH, OpAppendArguments(argv, true));
  }

  /** Entries that were in the index before stay under whatever is added. */
  lemma {:induction false} StaleWords(st: State, stale: SwitchMap, words: seq<string>, parseSwitches: bool)
    requires Sections(st)
    ensures var r := AppendWords(st, words, parseSwitches);
            AppendWords(st.(switches := stale + st.switches), words, parseSwitches)
            == r.(switches := stale + r.switches)
    decreases |words|
  {
    hide Trim, AppendWord;
    if words != [] {
      var arg := Trim(words[0]);
      var parse := parseSwitches && arg != SWITCH_TERMINATOR;
      StaleWord(st, stale, arg, parse);
      StaleWords(AppendWord(st, arg, parse), stale, words[1..], parse);
    }
  }

  lemma StaleWord(st: State, stale: SwitchMap, arg: string, parse: bool)
    requires Sections(st)
    ensures var r := AppendWord(st, arg, parse);
            AppendWord(st.(switches := stale + st.switches), arg, parse) == r.(switches := stale + r.switches)
  {
    hide IsSwitch, SwitchString, SwitchValue, SwitchWord, Key;
  }

  /** InitFromArgv does not clear the index.  On an object that already has switches the
      result is indexed exactly when every old key is set again. */
  lemma StaleIndexIff(stale: SwitchMap, argv: seq<string>)
    ensures Indexed(AppendArguments(FRESH.(switches := stale), argv, true)) <==> stale.Keys <= Init(argv).switches.Keys
  {
    hide AppendWords, Reparse, Trim;
    InitShape(argv);
    var st := SetProgram(FRESH, if argv == [] then "" else argv[0]);
    StaleWords(st, stale, WordsOf(argv), true);
    assert stale + map[] == stale;
    var r := Init(argv);
    var late := r.(switches := stale + r.switches);
    assert AppendArguments(FRESH.(switches := stale), argv, true) == late && Section(late) == Section(r);
    if stale.Keys <= r.switches.Keys {
      assert late.switches == r.switches;
    } else {
      var k :| k in stale && k !in r.switches;
      assert k in late.switches;
    }
  }

  lemma ReparseNone()
    ensures Reparse([]) == map[]
  {
  }

  lemma TrimNone()
    ensures Trim("") == ""
  {
  }

  /** InitFromArgv is a stable partition: the program, the switches before the first
      terminator, and all other words, each group in its original order. */
  lemma StablePartition(argv: seq<string>)
    ensures var st, words := Init(argv), WordsOf(argv);
            && st.argv == [ProgramOf(argv)] + CanonAll(LeadingSwitches(words)) + OtherWords(words)
            && st.beginArgs == 1 + |LeadingSwitches(words)|
            && Indexed(st)
  {
    hide SwitchesFound, OthersFound, Indexed, Init;
    InitShape(argv);
    LoopIsPartition(TrimAll(WordsOf(argv)));
    CanonLength(LeadingSwitches(WordsOf(argv)));
  }

  lemma CanonLength(words: seq<string>)
    ensures |CanonAll(words)| == |words|
  {
  }

  /** GetArgs gives the words that are not switches, without the first terminator only. */
  lemma ArgsAfterInit(argv: seq<string>)
    ensures var t := TrimAll(WordsOf(argv));
            Args(Init(argv)) == PlainOf(Before(t)) + (if From(t) == [] then [] else From(t)[1..])
  {
    hide SwitchesFound, Init, WithoutTerminator, TrimAll, Before, From, PlainOf;
    InitShape(argv);
    var st, t := Init(argv), TrimAll(WordsOf(argv));
    LoopIsPartition(t);
    assert st.argv[st.beginArgs..] == PlainOf(Before(t)) + From(t);
    PlainHasNoTerminator(Before(t));
    WithoutTerminatorOf(PlainOf(Before(t)), From(t));
  }

  lemma {:induction false} PlainHasNoTerminator(words: seq<string>)
    requires "--" !in words
    ensures "--" !in PlainOf(words)
  {
    if words != [] {
      PlainHasNoTerminator(words[1..]);
    }
  }

  lemma {:induction false} WithoutTerminatorOf(front: seq<string>, back: seq<string>)
    requires "--" !in front && (back == [] || back[0] == "--")
    ensures WithoutTerminator(front + back) == front + (if back == [] then [] else back[1..])
  {
    if front == [] {
      assert front + back == back;
    } else {
      WithoutTerminatorOf(front[1..], back);
      assert (front + back)[1..] == front[1..] + back;
      assert front[0] in front;
    }
  }

  // ---------------------------------------------------------------------------
  // Parsing again
  // ---------------------------------------------------------------------------

  /** The stored form of a switch survives being parsed again. */
  predicate Stable(w: string) {
    IsTrimmed(Canon(w)) && Canon(w) != "--"
  }

  lemma CanonTwice(w: string)
    ensures Canon(Canon(w)) == Canon(w)
  {
    if SwitchValue(w) == [] {
      var name := SwitchString(w);
      assert '=' !in name;
      SplitCombine(name, []);
    } else {
      CombineSplit(w);
    }
  }

  lemma TrimFront(s: string)
    requires s != [] && !IsWhitespace(s[0])
    ensures Trim(s) != [] && Trim(s)[0] == s[0]
  {
  }

  /** Words that are not switches, then nothing or a terminator and anything: no switch is found there. */
  lemma {:induction false} OthersStay(front: seq<string>, back: seq<string>)
    requires forall i :: 0 <= i < |front| ==> !IsSwitch(Posix, front[i])
    requires back == [] || back[0] == "--"
    ensures SwitchesFound(front + back, true) == [] && OthersFound(front + back, true) == front + back
  {
    hide IsSwitch, Canon;
    var whole := front + back;
    if front == [] {
      assert whole == back;
      if back != [] {
        NoMoreSwitches(back[1..]);
        assert back == [back[0]] + back[1..];
      }
    } else {
      OthersStay(front[1..], back);
      TerminatorIsSwitch();
      assert whole[1..] == front[1..] + back && whole == [whole[0]] + whole[1..];
    }
  }

  lemma TerminatorIsSwitch()
    ensures IsSwitch(Posix, SWITCH_TERMINATOR)
  {
  }

  lemma {:induction false} PlainAreNotSwitches(words: seq<string>)
    ensures forall i :: 0 <= i < |PlainOf(words)| ==> !IsSwitch(Posix, PlainOf(words)[i])
  {
    if words != [] {
      PlainAreNotSwitches(words[1..]);
    }
  }

  lemma {:induction false} SwitchesAreSwitches(words: seq<string>)
    ensures forall i :: 0 <= i < |SwitchesOf(words)| ==> IsSwitch(Posix, SwitchesOf(words)[i])
  {
    if words != [] {
      SwitchesAreSwitches(words[1..]);
    }
  }

  predicate AllStable(found: seq<string>) {
    forall i :: 0 <= i < |found| ==> Stable(found[i])
  }

  /** One stored switch, read again. */
  lemma SwitchAgain(w: string)
    requires IsSwitch(Posix, w)
    ensures IsSwitch(Posix, Trim(Canon(w)))
    ensures Stable(w) ==> Trim(Canon(w)) == Canon(w) == Canon(Canon(w)) && Canon(w) != SWITCH_TERMINATOR
    ensures !Stable(w) ==> Trim(Canon(w)) == SWITCH_TERMINATOR || Canon(Trim(Canon(w))) != Canon(w)
  {
    hide Canon, IsSwitch, Trim;
    SwitchFront(w);
    TrimFront(Canon(w));
    TrimmedSwitch(Trim(Canon(w)));
    CanonTwice(w);
    CanonShrinks(Trim(Canon(w)));
  }

  lemma AgainStep(found: seq<string>, others: seq<string>)
    requires found != []
    ensures TrimAll(CanonAll(found)) + others
            == [Trim(Canon(found[0]))] + (TrimAll(CanonAll(found[1..])) + others)
  {
    hide Canon, Trim;
    var c := CanonAll(found);
    assert c[1..] == CanonAll(found[1..]);
  }

  /** Stable switches are all found again, and nothing else changes. */
  lemma {:induction false} StableAgain(found: seq<string>, others: seq<string>)
    requires forall i :: 0 <= i < |found| ==> IsSwitch(Posix, found[i])
    requires SwitchesFound(others, true) == [] && OthersFound(others, true) == others && AllStable(found)
    ensures var t := TrimAll(CanonAll(found)) + others; SwitchesFound(t, true) == CanonAll(found) && OthersFound(t, true) == others
    decreases |found|
  {
    hide Canon, IsSwitch, Trim, Stable, TrimAll;
    var t := TrimAll(CanonAll(found)) + others;
    if found == [] {
      assert TrimAll([]) == [] && t == others;
    } else {
      StableAgain(found[1..], others);
      AgainStep(found, others);
      SwitchAgain(found[0]);
      var rest := TrimAll(CanonAll(found[1..])) + others;
      assert t[1..] == rest;
    }
  }

  /** If one of them is not stable, the list of switches changes. */
  lemma {:induction false} UnstableDiffers(found: seq<string>, others: seq<string>)
    requires forall i :: 0 <= i < |found| ==> IsSwitch(Posix, found[i])
    requires !AllStable(found)
    ensures SwitchesFound(TrimAll(CanonAll(found)) + others, true) != CanonAll(found)
    decreases |found|
  {
    hide Canon, IsSwitch, Trim, Stable, TrimAll;
    var t, c := TrimAll(CanonAll(found)) + others, CanonAll(found);
    SwitchAgain(found[0]);
    AgainStep(found, others);
    var rest := TrimAll(CanonAll(found[1..])) + others;
    assert t[1..] == rest && c[0] == Canon(found[0]) && c[1..] == CanonAll(found[1..]);
    if Stable(found[0]) {
      UnstableDiffers(found[1..], others);
      assert SwitchesFound(t, true)[1..] == SwitchesFound(rest, true);
    } else if t[0] == SWITCH_TERMINATOR {
      NoMoreSwitches(rest);
    } else {
      assert SwitchesFound(t, true)[0] == Canon(t[0]);
    }
  }

  lemma TrimmedSwitch(s: string)
    requires s != [] && s[0] == '-'
    ensures IsSwitch(Posix, s)
  {
  }

  lemma CanonShrinks(w: string)
    ensures |Canon(w)| <= |w|
  {
  }

  /** Without explicit empty values nothing is rewritten: the partition only reorders,
      and initialising again reproduces the state. */
  lemma NoEmptyValues(argv: seq<string>)
    requires forall w :: w in LeadingSwitches(WordsOf(argv)) ==> !HasExplicitEmptyValue(w)
    ensures var st, words := Init(argv), WordsOf(argv);
            && st.argv == [ProgramOf(argv)] + LeadingSwitches(words) + OtherWords(words)
            && Init(st.argv) == st
  {
    hide Init, Indexed, OtherWords, Canon, HasExplicitEmptyValue;
    var t, found := TrimAll(WordsOf(argv)), LeadingSwitches(WordsOf(argv));
    StablePartition(argv);
    CanonAllFixed(found);
    SwitchesAreWords(Before(t));
    TrimAllTrimmed(WordsOf(argv));
    CutHere(t);
    assert forall w :: w in found ==> w in Before(t) && w in Before(t) + From(t);
    forall i | 0 <= i < |found|
      ensures Stable(found[i])
    {
      assert found[i] in found;
      CanonFixed(found[i]);
    }
    ReinitIff(argv);
  }

  lemma CanonFixed(w: string)
    requires !HasExplicitEmptyValue(w)
    ensures Canon(w) == w
  {
    CombineSplit(w);
  }

  lemma {:induction false} CanonAllFixed(words: seq<string>)
    requires forall w :: w in words ==> !HasExplicitEmptyValue(w)
    ensures CanonAll(words) == words
  {
    hide Canon, HasExplicitEmptyValue;
    if words != [] {
      assert words[0] in words;
      CanonFixed(words[0]);
      CanonAllFixed(words[1..]);
    }
  }

  lemma {:induction false} SwitchesAreWords(words: seq<string>)
    ensures forall w :: w in SwitchesOf(words) ==> w in words
  {
    if words != [] {
      SwitchesAreWords(words[1..]);
    }
  }

  /** The one switch that turns into a terminator when it is stored: "--=". */
  lemma EmptyNameCorner()
    ensures Canon("--=") == "--" && !Stable("--=")
  {
    FindIs("--=", '=', 2);
  }

  /** Initialising again from the stored argv reproduces the whole state, exactly when
      every switch before the terminator is stored in a stable form. */
  lemma ReinitIff(argv: seq<string>)
    ensures var st := Init(argv);
            Init(st.argv) == st <==> AllStable(LeadingSwitches(WordsOf(argv)))
  {
    hide SwitchesFound, OthersFound, Init, Indexed, CanonAll, TrimAll, PlainOf, SwitchesOf, Before, From, Trim, Stable, AllStable;
    var t := TrimAll(WordsOf(argv));
    var found, plain := SwitchesOf(Before(t)), PlainOf(Before(t));
    var others := plain + From(t);
    var st := Init(argv);
    InitShape(argv);
    InitShape(st.argv);
    LoopIsPartition(t);
    SwitchesAreSwitches(Before(t));
    PlainAreNotSwitches(Before(t));
    OthersStay(plain, From(t));
    if AllStable(found) {
      StableAgain(found, others);
    } else {
      UnstableDiffers(found, others);
    }
    ReinitWords(argv);
    var t2 := TrimAll(CanonAll(found)) + others;
    SameState(st, Init(st.argv), SwitchesFound(t2, true), OthersFound(t2, true), CanonAll(found), others);
  }

  lemma ReinitWords(argv: seq<string>)
    ensures var st, t := Init(argv), TrimAll(WordsOf(argv));
            && st.argv != [] && ProgramOf(st.argv) == st.argv[0]
            && TrimAll(WordsOf(st.argv)) == TrimAll(CanonAll(SwitchesOf(Before(t)))) + (PlainOf(Before(t)) + From(t))
  {
    hide SwitchesFound, OthersFound, Init, Indexed, CanonAll, PlainOf, SwitchesOf, TrimAll, Trim, Before, From;
    var st, t := Init(argv), TrimAll(WordsOf(argv));
    InitShape(argv);
    LoopIsPartition(t);
    TrimNone();
    var c, others := CanonAll(SwitchesOf(Before(t))), PlainOf(Before(t)) + From(t);
    assert st.argv[1..] == c + others;
    PlainAreWords(Before(t));
    TrimAllTrimmed(WordsOf(argv));
    CutHere(t);
    assert forall w :: w in others ==> w in Before(t) + From(t);
    TrimAllConcat(c, others);
    TrimAllFixed(others);
  }

  lemma {:induction false} TrimAllConcat(a: seq<string>, b: seq<string>)
    ensures TrimAll(a + b) == TrimAll(a) + TrimAll(b)
  {
    hide Trim;
    if a == [] {
      assert a + b == b;
    } else {
      TrimAllConcat(a[1..], b);
      assert (a + b)[1..] == a[1..] + b && (a + b)[0] == a[0];
      assert TrimAll(a + b) == [Trim(a[0])] + TrimAll(a[1..] + b);
      assert TrimAll(a) == [Trim(a[0])] + TrimAll(a[1..]);
    }
  }

  lemma {:induction false} TrimAllTrimmed(words: seq<string>)
    ensures forall w :: w in TrimAll(words) ==> IsTrimmed(w)
  {
    hide Trim;
    if words != [] {
      TrimAllTrimmed(words[1..]);
    }
  }

  lemma {:induction false} TrimAllFixed(words: seq<string>)
    requires forall w :: w in words ==> IsTrimmed(w)
    ensures TrimAll(words) == words
  {
    hide Trim;
    if words != [] {
      assert words[0] in words;
      TrimAllFixed(words[1..]);
    }
  }

  lemma {:induction false} PlainAreWords(words: seq<string>)
    ensures forall w :: w in PlainOf(words) ==> w in words
  {
    if words != [] {
      PlainAreWords(words[1..]);
    }
  }

  /** Two indexed states that start alike are equal exactly when their two lists are. */
  lemma SameState(a: State, b: State, sw: seq<string>, ot: seq<string>, swA: seq<string>, otA: seq<string>)
    requires Indexed(a) && Indexed(b) && a.start == b.start == 1
    requires a.argv != [] && a.argv == [a.argv[0]] + swA + otA && a.beginArgs == 1 + |swA|
    requires b.argv == [a.argv[0]] + sw + ot && b.beginArgs == 1 + |sw|
    ensures a == b <==> sw == swA && ot == otA
  {
    hide Reparse;
    assert a.argv[1..a.beginArgs] == swA && a.argv[a.beginArgs..] == otA;
    assert b.argv[1..b.beginArgs] == sw && b.argv[b.beginArgs..] == ot;
  }
}
