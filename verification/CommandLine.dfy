/**
 The command line as the program keeps it: an object whose methods update argv,
 the divider and the switch index in place.
 */
module CommandLine {
  import opened CommandLineSyntax
  import opened CommandLineState
  import opened CommandLinePartition

  class CommandLine {
    var argv: seq<string>
    var beginArgs: nat
    var switches: SwitchMap
    ghost var start: nat

    ghost function Value(): State
      reads this
    {
      State(argv, start, beginArgs, switches)
    }

    /** The index agrees with the switch section that ends at the divider. */
    ghost predicate Valid()
      reads this
    {
      Indexed(Value())
    }

    constructor NoProgram()
      ensures Value() == FRESH && Valid()
      ensures argv == [""] && beginArgs == 1 && switches == map[]
    {
      argv, beginArgs, switches, start := [""], 1, map[], 1;
      new;
      assert Section(Value()) == [];
    }

    constructor FromArgv(words: seq<string>)
      ensures Value() == Init(words) && Valid()
    {
      argv, beginArgs, switches, start := [""], 1, map[], 1;
      new;
      assert Section(Value()) == [];
      InitFromArgv(words);
    }

    /** The old switch index is not cleared: the result is indexed exactly when every old
        key is set again, as on a fresh object. */
    method InitFromArgv(words: seq<string>)
      modifies this
      ensures Value() == CommandLineState.AppendArguments(FRESH.(switches := old(switches)), words, true)
      ensures old(switches) == map[] ==> Value() == Init(words)
      ensures Valid() <==> old(switches).Keys <= Init(words).switches.Keys
    {
      StaleIndexIff(switches, words);
      argv := [""];
      beginArgs, start := 1, 1;
      assert switches == map[] ==> Value() == FRESH;
      SetProgram(if |words| == 0 then "" else words[0]);
      AppendSwitchesAndArguments(words);
    }

    method SetProgram(program: string)
      requires Sections(Value())
      modifies this
      ensures Value() == CommandLineState.SetProgram(old(Value()), program)
      ensures argv == [Trim(program)] + old(argv)[1..] && beginArgs == old(beginArgs) && switches == old(switches)
      ensures old(Valid()) ==> Valid()
    {
      if Indexed(Value()) {
        SetProgramIndexed(Value(), program);
      }
      argv := argv[0 := Trim(program)];
    }

    method AppendSwitchNative(switchString: string, value: string)
      requires Sections(Value())
      modifies this
      ensures Value() == AppendSwitch(old(Value()), switchString, value)
      ensures argv == old(argv)[..old(beginArgs)] + [SwitchWord(switchString, value)] + old(argv)[old(beginArgs)..]
      ensures beginArgs == old(beginArgs) + 1 && switches == old(switches)[Key(switchString) := value]
      ensures old(Valid()) ==> (Valid() <==> '=' !in switchString)
    {
      if Indexed(Value()) {
        AppendSwitchIndexed(Value(), switchString, value);
      }
      var combined := switchString;
      var prefixLength := SwitchPrefixLength(Posix, combined);
      switches := switches[switchString[prefixLength..] := value];
      if prefixLength == 0 {
        combined := "--" + combined;
      }
      if |value| != 0 {
        combined := combined + "=" + value;
      }
      argv := argv[..beginArgs] + [combined] + argv[beginArgs..];
      beginArgs := beginArgs + 1;
    }

    method AppendArgNative(value: string)
      requires Sections(Value())
      modifies this
      ensures Value() == AppendArg(old(Value()), value)
      ensures argv == old(argv) + [value] && beginArgs == old(beginArgs) && switches == old(switches)
      ensures old(Valid()) ==> Valid()
    {
      if Indexed(Value()) {
        AppendArgIndexed(Value(), value);
      }
      argv := argv + [value];
    }

    /** Parse and append everything after the first word. */
    method AppendSwitchesAndArguments(words: seq<string>)
      requires Sections(Value())
      modifies this
      ensures Value() == AppendWords(old(Value()), WordsOf(words), true)
      ensures old(Valid()) ==> Valid()
    {
      hide IsSwitch, SwitchString, SwitchValue, Trim, AppendSwitch, AppendArg, Reparse, SwitchWord, Key, Indexed;
      ghost var was := Value();
      if Indexed(was) {
        AppendWordsIndexed(was, WordsOf(words), true);
      }
      var parseSwitches := true;
      var i := 1;
      while i < |words|
        invariant i >= 1 && Sections(Value())
        invariant AppendWords(Value(), if i <= |words| then words[i..] else [], parseSwitches)
                  == AppendWords(was, WordsOf(words), true)
      {
        assert words[i..] == [words[i]] + words[i + 1..];
        var arg := Trim(words[i]);
        parseSwitches := parseSwitches && arg != SWITCH_TERMINATOR;
        if parseSwitches && IsSwitch(Posix, arg) {
          AppendSwitchNative(SwitchString(arg), SwitchValue(arg));
        } else {
          AppendArgNative(arg);
        }
        i := i + 1;
      }
    }

    /** Appending a command line with words after its program to itself never ends. */
    method AppendArguments(other: CommandLine, includeProgram: bool)
      requires Sections(Value()) && |other.argv| > 0 && (other == this ==> |argv| == 1)
      modifies this
      ensures Value() == CommandLineState.AppendArguments(old(Value()), old(other.argv), includeProgram)
      ensures argv[0] == if includeProgram then Trim(old(other.argv)[0]) else old(argv)[0]
      ensures old(Valid()) ==> Valid()
    {
      if includeProgram {
        SetProgram(other.argv[0]);
      }
      AppendSwitchesAndArguments(other.argv);
      AppendArgumentsShape(old(Value()), old(other.argv), includeProgram);
    }

    /** On an indexed command line, a switch is found exactly if the section has a word with that key. */
    method HasSwitch(switchString: string) returns (found: bool)
      ensures found <==> switchString in switches
      ensures Valid() ==> (found <==> exists i :: start <= i < beginArgs && WordKey(argv[i]) == switchString)
    {
      found := switchString in switches;
      if Valid() {
        LookupIsScan(switchString);
      }
    }

    lemma LookupIsScan(switchString: string)
      requires Valid()
      ensures switchString in switches <==> exists i :: start <= i < beginArgs && WordKey(argv[i]) == switchString
      ensures forall i :: start <= i < beginArgs && WordKey(argv[i]) == switchString
                && (forall j :: i < j < beginArgs ==> WordKey(argv[j]) != switchString)
                ==> switchString in switches && switches[switchString] == SwitchValue(argv[i])
    {
      hide WordKey, SwitchValue;
      ghost var section := Section(Value());
      ReparseLookup(section, switchString);
      assert forall i :: 0 <= i < |section| ==> section[i] == argv[start + i];
      if i :| start <= i < beginArgs && WordKey(argv[i]) == switchString {
        assert section[i - start] == argv[i];
      }
      forall i | start <= i < beginArgs && WordKey(argv[i]) == switchString
                 && (forall j :: i < j < beginArgs ==> WordKey(argv[j]) != switchString)
        ensures switchString in switches && switches[switchString] == SwitchValue(argv[i])
      {
        assert section[i - start] == argv[i];
      }
    }

    /** On an indexed command line, a lookup answers what a scan of the section would:
        the last matching switch wins. */
    method GetSwitchValueNative(switchString: string) returns (value: string)
      ensures value == if switchString in switches then switches[switchString] else ""
      ensures Valid() ==>
                forall i :: start <= i < beginArgs && WordKey(argv[i]) == switchString
                  && (forall j :: i < j < beginArgs ==> WordKey(argv[j]) != switchString)
                  ==> value == SwitchValue(argv[i])
      ensures Valid() && (forall i :: start <= i < beginArgs ==> WordKey(argv[i]) != switchString) ==> value == ""
    {
      hide WordKey, SwitchValue;
      value := if switchString in switches then switches[switchString] else "";
      if Valid() {
        LookupIsScan(switchString);
      }
    }

    /** The source may be the command line itself. */
    method CopySwitchesFrom(source: CommandLine, names: seq<string>)
      requires Sections(Value())
      modifies this
      ensures Value() == if source == this then CopyOwn(old(Value()), names)
                         else CopySwitches(old(Value()), source.switches, names)
      ensures old(Valid()) && source != this ==> (Valid() <==> CleanCopies(source.switches, names))
      ensures old(Valid()) && old(source.Valid()) ==> Valid()
    {
      hide AppendSwitch, Reparse, CleanCopies, WordKey, SwitchValue, Indexed, CopySwitches, CopyOwn;
      ghost var was := Value();
      if Indexed(was) {
        CopySwitchesIndexed(was, source.switches, names);
        CopyOwnIndexed(was, names);
      }
      if source.Valid() {
        CopiesFromIndexed(source.Value(), names);
      }
      var i := 0;
      assert names[0..] == names;
      while i < |names|
        invariant 0 <= i <= |names| && Sections(Value())
        invariant source != this ==>
          CopySwitches(Value(), source.switches, names[i..]) == CopySwitches(was, source.switches, names)
        invariant source == this ==> CopyOwn(Value(), names[i..]) == CopyOwn(was, names)
      {
        CopySwitchesStep(Value(), source.switches, names, i);
        CopyOwnStep(Value(), names, i);
        if names[i] in source.switches {
          var value := source.GetSwitchValueNative(names[i]);
          AppendSwitchSections(Value(), names[i], value);
          AppendSwitchNative(names[i], value);
        }
        i := i + 1;
      }
      CopySwitchesStep(Value(), source.switches, names, i);
      CopyOwnStep(Value(), names, i);
    }

    method PrependWrapper(wrapper: string)
      requires Sections(Value())
      modifies this
      ensures Value() == if wrapper == "" then old(Value())
                         else CommandLineState.PrependWrapper(old(Value()), SplitOnSpaces(wrapper))
      ensures var words := if wrapper == "" then [] else SplitOnSpaces(wrapper);
              argv == words + old(argv) && beginArgs == old(beginArgs) + |words| && switches == old(switches)
      ensures old(Valid()) ==> Valid()
    {
      if |wrapper| == 0 {
        return;
      }
      var wrapperArgv := SplitOnSpaces(wrapper);
      if Indexed(Value()) {
        PrependWrapperIndexed(Value(), wrapperArgv);
      }
      argv := wrapperArgv + argv;
      beginArgs := beginArgs + |wrapperArgv|;
      start := start + |wrapperArgv|;
    }

    method GetArgs() returns (args: seq<string>)
      requires Sections(Value())
      ensures args == Args(Value())
    {
      hide WithoutTerminator;
      args := argv[beginArgs..];
      var i := 0;
      while i < |args| && args[i] != SWITCH_TERMINATOR
        invariant 0 <= i <= |args| && forall k :: 0 <= k < i ==> args[k] != SWITCH_TERMINATOR
      {
        i := i + 1;
      }
      assert args == args[..i] + args[i..];
      WithoutTerminatorOf(args[..i], args[i..]);
      if i < |args| {
        args := args[..i] + args[i + 1..];
      }
    }
  }
}
