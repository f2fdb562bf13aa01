/**
 Printing a Windows command line, and reading it back by the documented rules of
 CommandLineToArgvW: words are separated by spaces and tabs outside quotes; 2n
 backslashes before a quote stand for n backslashes and the quote opens or closes
 a quoted part; 2n + 1 stand for n backslashes and a literal quote; backslashes
 anywhere else stand for themselves.
 */
module ArgvQuoting {
  import opened CommandLineSyntax

  function Backslashes(n: nat): (s: string)
    ensures |s| == n && forall i :: 0 <= i < n ==> s[i] == '\\'
  {
    seq(n, i => '\\')
  }

  /** The length of the run of backslashes at the front of `s`. */
  function Run(s: string): (n: nat)
    ensures n <= |s|
    ensures forall i :: 0 <= i < n ==> s[i] == '\\'
    ensures n < |s| ==> s[n] != '\\'
  {
    if s == [] || s[0] != '\\' then 0 else 1 + Run(s[1..])
  }

  lemma RunIs(s: string, n: nat)
    requires n <= |s| && (forall i :: 0 <= i < n ==> s[i] == '\\') && (n < |s| ==> s[n] != '\\')
    ensures Run(s) == n
  {
  }

  lemma RunSplit(s: string)
    ensures s == Backslashes(Run(s)) + s[Run(s)..]
  {
  }

  predicate IsBlank(c: char) {
    c == ' ' || c == '\t'
  }

  // ---------------------------------------------------------------------------
  // Reading
  // ---------------------------------------------------------------------------

  /** The rest of one word, and what follows it. */
  function Scan(s: string, inQuotes: bool): (r: (string, string))
    ensures |r.1| <= |s|
    ensures s != [] && (inQuotes || !IsBlank(s[0])) ==> |r.1| < |s|
    decreases |s|
  {
    var n := Run(s);
    if n < |s| && s[n] == '"' then
      var (word, rest) := Scan(s[n + 1..], if n % 2 == 0 then !inQuotes else inQuotes);
      (Backslashes(n / 2) + (if n % 2 == 0 then "" else "\"") + word, rest)
    else if n > 0 then
      var (word, rest) := Scan(s[n..], inQuotes);
      (Backslashes(n) + word, rest)
    else if s == [] || (IsBlank(s[0]) && !inQuotes) then
      ("", s)
    else
      var (word, rest) := Scan(s[1..], inQuotes);
      ([s[0]] + word, rest)
  }

  /** CommandLineToArgvW after the program name. */
  function ParseArgs(s: string): seq<string>
    decreases |s|
  {
    if s == [] then []
    else if IsBlank(s[0]) then ParseArgs(s[1..])
    else
      var (word, rest) := Scan(s, false);
      [word] + ParseArgs(rest)
  }

  // ---------------------------------------------------------------------------
  // Quoting one argument
  // ---------------------------------------------------------------------------

  predicate Special(c: char) {
    c == ' ' || c == '\\' || c == '"'
  }

  predicate NeedsQuotes(arg: string) {
    exists i :: 0 <= i < |arg| && Special(arg[i])
  }

  /** `arg` between quotes: backslashes double before a quote and at the end, quotes are escaped. */
  function QuoteBody(arg: string): string
    decreases |arg|
  {
    var n := Run(arg);
    if arg == [] then []
    else if n > 0 then
      Backslashes(if n == |arg| || arg[n] == '"' then 2 * n else n) + QuoteBody(arg[n..])
    else if arg[0] == '"' then "\\\"" + QuoteBody(arg[1..])
    else [arg[0]] + QuoteBody(arg[1..])
  }

  function Quote(arg: string): string {
    if NeedsQuotes(arg) then "\"" + QuoteBody(arg) + "\"" else arg
  }

  /** The loops as written: runs of backslashes are measured, doubled if need be, and copied out. */
  method QuoteForCommandLineToArgvW(arg: string) returns (out: string)
    ensures out == Quote(arg)
  {
    hide QuoteBody, Run;
    if !NeedsQuotes(arg) {
      return arg;
    }
    out := "\"";
    var i := 0;
    assert arg[0..] == arg;
    while i < |arg|
      invariant 0 <= i <= |arg|
      invariant out + QuoteBody(arg[i..]) == "\"" + QuoteBody(arg)
      decreases |arg| - i
    {
      ghost var before, tail := out, arg[i..];
      if arg[i] == '\\' {
        var start, end := i, i + 1;
        while end < |arg| && arg[end] == '\\'
          invariant start < end <= |arg|
          invariant forall k :: start <= k < end ==> arg[k] == '\\'
        {
          end := end + 1;
        }
        var count := end - start;
        RunIs(tail, end - start);
        QuoteBodyRun(tail);
        assert tail[end - start..] == arg[end..];
        if end == |arg| || arg[end] == '"' {
          count := count * 2;
        }
        out := out + Backslashes(count);
        assert QuoteBody(tail) == Backslashes(count) + QuoteBody(arg[end..]);
        i := end;
      } else {
        QuoteBodyChar(tail);
        assert tail[1..] == arg[i + 1..];
        if arg[i] == '"' {
          out := out + "\\" + "\"";
          assert out == before + "\\\"";
        } else {
          out := out + [arg[i]];
        }
        i := i + 1;
      }
    }
    QuoteBodyEmpty();
    assert arg[i..] == "" && out + "" == out;
    out := out + "\"";
  }

  lemma QuoteBodyEmpty()
    ensures QuoteBody("") == ""
  {
  }

  /** A leading run of backslashes is printed on its own, doubled before a quote or the end. */
  lemma QuoteBodyRun(arg: string)
    requires Run(arg) > 0
    ensures var n := Run(arg);
            QuoteBody(arg) == Backslashes(if n == |arg| || arg[n] == '"' then 2 * n else n) + QuoteBody(arg[n..])
  {
    hide Run;
  }

  /** Any other character is copied, a quote with a backslash in front. */
  lemma QuoteBodyChar(arg: string)
    requires arg != [] && arg[0] != '\\'
    ensures QuoteBody(arg) == (if arg[0] == '"' then "\\\"" else [arg[0]]) + QuoteBody(arg[1..])
  {
    RunIs(arg, 0);
    hide Run;
  }

  // ---------------------------------------------------------------------------
  // Reading back what was quoted
  // ---------------------------------------------------------------------------

  /** A backslash run in front of a quote. */
  lemma ScanRunQuote(n: nat, rest: string, inQuotes: bool)
    ensures var (word, tail) := Scan(rest, if n % 2 == 0 then !inQuotes else inQuotes);
            Scan(Backslashes(n) + "\"" + rest, inQuotes)
            == (Backslashes(n / 2) + (if n % 2 == 0 then "" else "\"") + word, tail)
  {
    var s := Backslashes(n) + "\"" + rest;
    assert s[n] == '"' && s[n + 1..] == rest;
    RunIs(s, n);
  }

  /** A backslash run in front of anything else. */
  lemma ScanRunOther(n: nat, rest: string, inQuotes: bool)
    requires rest == [] || (rest[0] != '"' && rest[0] != '\\')
    ensures var (word, tail) := Scan(rest, inQuotes);
            Scan(Backslashes(n) + rest, inQuotes) == (Backslashes(n) + word, tail)
  {
    var s := Backslashes(n) + rest;
    if n == 0 {
      assert s == rest;
      assert Backslashes(0) + Scan(rest, inQuotes).0 == Scan(rest, inQuotes).0;
    } else {
      assert s[n..] == rest;
      RunIs(s, n);
    }
  }

  lemma ScanChar(c: char, rest: string, inQuotes: bool)
    requires c != '"' && c != '\\' && (inQuotes || !IsBlank(c))
    ensures var (word, tail) := Scan(rest, inQuotes);
            Scan([c] + rest, inQuotes) == ([c] + word, tail)
  {
    var s := [c] + rest;
    RunIs(s, 0);
    assert s[1..] == rest;
  }

  /** Doubled backslashes and an escaped quote. */
  lemma ScanEscapedQuote(n: nat, inner: string)
    ensures var (word, rest) := Scan(inner, true);
            Scan(Backslashes(2 * n) + ("\\\"" + inner), true) == (Backslashes(n) + ("\"" + word), rest)
  {
    hide Scan;
    var s := Backslashes(2 * n) + ("\\\"" + inner);
    assert s == Backslashes(2 * n + 1) + "\"" + inner;
    ScanRunQuote(2 * n + 1, inner, true);
    var word := Scan(inner, true).0;
    assert Backslashes(n) + "\"" + word == Backslashes(n) + ("\"" + word);
  }

  lemma Assoc(a: string, b: string, c: string)
    ensures a + b + c == a + (b + c)
  {
  }

  /** Inside quotes, the printed form of `arg` and the closing quote read back as `arg`. */
  lemma {:induction false} ScanQuoteBody(arg: string, tail: string)
    ensures var (word, rest) := Scan(tail, false);
            Scan(QuoteBody(arg) + ("\"" + tail), true) == (arg + word, rest)
    decreases |arg|
  {
    hide Scan, QuoteBody, Run;
    var n := Run(arg);
    var close, word := "\"" + tail, Scan(tail, false).0;
    if n == |arg| {
      ScanQuotedEnd(arg, tail);
    } else if arg[n] == '"' {
      var after := arg[n + 1..];
      ScanQuoteBody(after, tail);
      QuoteBodyBeforeQuote(arg, n);
      ScanEscapedQuote(n, QuoteBody(after) + close);
      Assoc("\\\"", QuoteBody(after), close);
      Assoc(Backslashes(2 * n), "\\\"" + QuoteBody(after), close);
      RunSplit(arg);
      assert arg[n..] == "\"" + after;
      Assoc("\"", after, word);
      Assoc(Backslashes(n), arg[n..], word);
    } else if n > 0 {
      ScanQuotedRun(arg, tail);
    } else {
      ScanQuoteBody(arg[1..], tail);
      QuoteBodyChar(arg);
      ScanChar(arg[0], QuoteBody(arg[1..]) + close, true);
      Assoc([arg[0]], QuoteBody(arg[1..]), close);
      Assoc([arg[0]], arg[1..], word);
      assert arg == [arg[0]] + arg[1..];
    }
  }

  /** A quote, with the backslashes in front of it. */
  lemma QuoteBodyBeforeQuote(arg: string, n: nat)
    requires n == Run(arg) < |arg| && arg[n] == '"'
    ensures QuoteBody(arg) == Backslashes(2 * n) + ("\\\"" + QuoteBody(arg[n + 1..]))
  {
    hide *;
    if n > 0 {
      QuoteBodyRun(arg);
      QuoteBodyChar(arg[n..]);
      DropMore(arg, n);
    } else {
      QuoteBodyChar(arg);
      NoBackslashes("\\\"" + QuoteBody(arg[1..]));
    }
  }

  lemma DropMore(s: string, n: nat)
    requires n < |s|
    ensures s[n..][1..] == s[n + 1..]
  {
  }

  lemma NoBackslashes(s: string)
    ensures Backslashes(0) + s == s
  {
  }

  lemma ScanQuotedEnd(arg: string, tail: string)
    requires Run(arg) == |arg|
    ensures var (word, rest) := Scan(tail, false);
            Scan(QuoteBody(arg) + ("\"" + tail), true) == (arg + word, rest)
  {
    hide Scan, QuoteBody, Run;
    var n := Run(arg);
    RunSplit(arg);
    QuoteBodyEmpty();
    if n > 0 {
      QuoteBodyRun(arg);
    }
    assert QuoteBody(arg) == Backslashes(2 * n);
    ScanRunQuote(2 * n, tail, true);
    Assoc(Backslashes(2 * n), "\"", tail);
    assert arg == Backslashes(n) == Backslashes(n) + "";
  }

  lemma {:induction false} ScanQuotedRun(arg: string, tail: string)
    requires 0 < Run(arg) < |arg| && arg[Run(arg)] != '"'
    ensures var (word, rest) := Scan(tail, false);
            Scan(QuoteBody(arg) + ("\"" + tail), true) == (arg + word, rest)
    decreases |arg|, 0
  {
    hide Scan, QuoteBody, Run;
    var n := Run(arg);
    ScanQuoteBody(arg[n..], tail);
    QuoteBodyRun(arg);
    QuoteBodyChar(arg[n..]);
    var inner := QuoteBody(arg[n..]) + ("\"" + tail);
    Assoc(Backslashes(n), QuoteBody(arg[n..]), "\"" + tail);
    ScanRunOther(n, inner, true);
    RunSplit(arg);
    Assoc(Backslashes(n), arg[n..], Scan(tail, false).0);
  }

  /** No blank and no quote: the text stands for itself. */
  predicate Plain(s: string) {
    forall i :: 0 <= i < |s| ==> !IsBlank(s[i]) && s[i] != '"'
  }

  lemma {:induction false} ScanPlain(s: string, tail: string)
    requires Plain(s) && (tail == [] || (tail[0] != '"' && tail[0] != '\\'))
    ensures var (word, rest) := Scan(tail, false);
            Scan(s + tail, false) == (s + word, rest)
    decreases |s|
  {
    hide Scan, Run;
    var n := Run(s);
    if s == [] {
      assert s + tail == tail;
      assert s + Scan(tail, false).0 == Scan(tail, false).0;
    } else if n > 0 {
      ScanPlain(s[n..], tail);
      var inner := s[n..] + tail;
      assert inner != [] ==> inner[0] == (if n < |s| then s[n] else tail[0]);
      ScanRunOther(n, inner, false);
      RunSplit(s);
      assert s + tail == Backslashes(n) + inner;
      assert s + Scan(tail, false).0 == Backslashes(n) + (s[n..] + Scan(tail, false).0);
    } else {
      ScanPlain(s[1..], tail);
      ScanChar(s[0], s[1..] + tail, false);
      assert s + tail == [s[0]] + (s[1..] + tail);
      assert s + Scan(tail, false).0 == [s[0]] + (s[1..] + Scan(tail, false).0);
    }
  }

  /** The end of the line, or a space. */
  predicate EndsWord(tail: string) {
    tail == [] || tail[0] == ' '
  }

  lemma ScanEnd(tail: string, inQuotes: bool)
    requires EndsWord(tail) && (inQuotes ==> tail == [])
    ensures Scan(tail, inQuotes) == ("", tail)
  {
    RunIs(tail, 0);
  }

  /** A tab is only protected if a space, a backslash or a quote forces quotes. */
  predicate Quotable(arg: string) {
    '\t' in arg ==> ' ' in arg || '\\' in arg || '"' in arg
  }

  lemma NeedsQuotesIff(arg: string)
    ensures NeedsQuotes(arg) <==> ' ' in arg || '\\' in arg || '"' in arg
  {
    if ' ' in arg {
      var i :| 0 <= i < |arg| && arg[i] == ' ';
      assert Special(arg[i]);
    } else if '\\' in arg {
      var i :| 0 <= i < |arg| && arg[i] == '\\';
      assert Special(arg[i]);
    } else if '"' in arg {
      var i :| 0 <= i < |arg| && arg[i] == '"';
      assert Special(arg[i]);
    }
  }

  /** An argument is printed as it is exactly if it has no space, no backslash and no quote. */
  lemma QuoteUnchangedIff(arg: string)
    ensures Quote(arg) == arg <==> ' ' !in arg && '\\' !in arg && '"' !in arg
  {
    NeedsQuotesIff(arg);
    QuoteLength(arg);
  }

  /** How many characters of `arg` get a backslash: quotes, and backslashes in a run that ends at a quote or at the end. */
  function Escapes(arg: string): nat {
    if arg == [] then 0
    else
      (if arg[0] == '"' || (arg[0] == '\\' && (Run(arg) == |arg| || arg[Run(arg)] == '"')) then 1 else 0) + Escapes(arg[1..])
  }

  /** Quotes cost two characters and one for each character that is escaped, no more. */
  lemma QuoteLength(arg: string)
    ensures |Quote(arg)| == |arg| + if ' ' in arg || '\\' in arg || '"' in arg then 2 + Escapes(arg) else 0
  {
    NeedsQuotesIff(arg);
    if NeedsQuotes(arg) {
      QuoteBodyLength(arg);
    }
  }

  lemma {:induction false} QuoteBodyLength(arg: string)
    ensures |QuoteBody(arg)| == |arg| + Escapes(arg)
    decreases |arg|
  {
    hide Run, QuoteBody;
    var n := Run(arg);
    if arg == [] {
      QuoteBodyEmpty();
    } else if n > 0 {
      QuoteBodyRun(arg);
      QuoteBodyLength(arg[n..]);
      EscapesRun(arg, n);
    } else {
      QuoteBodyChar(arg);
      QuoteBodyLength(arg[1..]);
    }
  }

  /** All backslashes of a run are escaped, or none. */
  lemma {:induction false} EscapesRun(arg: string, k: nat)
    requires k <= Run(arg)
    ensures Escapes(arg) == Escapes(arg[k..]) + (if Run(arg) == |arg| || arg[Run(arg)] == '"' then k else 0)
    decreases k
  {
    if k == 0 {
      assert arg[0..] == arg;
    } else {
      assert Run(arg) == 1 + Run(arg[1..]);
      EscapesRun(arg[1..], k - 1);
      assert arg[1..][k - 1..] == arg[k..];
    }
  }

  /** A quoted argument reads back as itself, wherever it ends a word. */
  lemma ScanQuote(arg: string, tail: string)
    requires Quotable(arg) && EndsWord(tail)
    ensures Scan(Quote(arg) + tail, false) == (arg, tail)
  {
    hide Scan, QuoteBody;
    ScanEnd(tail, false);
    NeedsQuotesIff(arg);
    if NeedsQuotes(arg) {
      var inner := QuoteBody(arg) + ("\"" + tail);
      ScanQuoteBody(arg, tail);
      ScanRunQuote(0, inner, false);
      assert Quote(arg) + tail == Backslashes(0) + "\"" + inner;
      assert Backslashes(0) + "" + (arg + "") == arg;
    } else {
      ScanPlain(arg, tail);
      assert arg + "" == arg;
    }
  }

  lemma QuoteFront(arg: string)
    requires arg != [] && Quotable(arg)
    ensures Quote(arg) != [] && !IsBlank(Quote(arg)[0])
  {
    NeedsQuotesIff(arg);
  }

  /** Quoting one argument and reading the result gives that argument back, exactly
      when it is not empty and has a tab only together with a space, backslash or quote. */
  lemma QuoteRoundTrip(arg: string)
    ensures ParseArgs(Quote(arg)) == [arg]
            <==> arg != [] && ('\t' in arg ==> ' ' in arg || '\\' in arg || '"' in arg)
  {
    if arg != [] && Quotable(arg) {
      QuoteFront(arg);
      ScanQuote(arg, []);
      assert Quote(arg) + [] == Quote(arg);
    } else if arg != [] {
      NeedsQuotesIff(arg);
      UnquotedSplits(arg);
    }
  }

  /** Without quotes or backslashes no word contains a blank. */
  lemma {:induction false} ScanNoBlank(s: string)
    requires forall i :: 0 <= i < |s| ==> s[i] != '"' && s[i] != '\\'
    ensures forall i :: 0 <= i < |Scan(s, false).0| ==> !IsBlank(Scan(s, false).0[i])
    decreases |s|
  {
    RunIs(s, 0);
    if s != [] && !IsBlank(s[0]) {
      ScanNoBlank(s[1..]);
    }
  }

  lemma {:induction false} UnquotedSplits(arg: string)
    requires !NeedsQuotes(arg) && '\t' in arg
    ensures ParseArgs(arg) != [arg]
  {
    assert forall i :: 0 <= i < |arg| ==> !Special(arg[i]);
    ParseNoBlank(arg);
  }

  lemma {:induction false} ParseNoBlank(s: string)
    requires forall i :: 0 <= i < |s| ==> s[i] != '"' && s[i] != '\\'
    ensures ParseArgs(s) != [] ==> '\t' !in ParseArgs(s)[0]
    decreases |s|
  {
    if s != [] {
      if IsBlank(s[0]) {
        ParseNoBlank(s[1..]);
      } else {
        ScanNoBlank(s);
      }
    }
  }

  // ---------------------------------------------------------------------------
  // The whole command line
  // ---------------------------------------------------------------------------

  /** How one word of argv is printed.  The name of a switch is printed as it stands. */
  function PrintWord(arg: string, parseSwitches: bool): string {
    if parseSwitches && IsSwitch(Windows, arg) then
      SwitchString(arg) + (if SwitchValue(arg) == [] then [] else "=" + Quote(SwitchValue(arg)))
    else
      Quote(arg)
  }

  /** Everything after the program: each word behind a space, switches until the terminator. */
  function PrintWords(argv: seq<string>, parseSwitches: bool): string {
    if argv == [] then []
    else
      var parse := parseSwitches && argv[0] != SWITCH_TERMINATOR;
      " " + PrintWord(argv[0], parse) + PrintWords(argv[1..], parse)
  }

  method GetCommandLineString(argv: seq<string>) returns (s: string)
    requires |argv| >= 1
    ensures s == Quote(argv[0]) + PrintWords(argv[1..], true)
  {
    hide Quote, PrintWords, IsSwitch, SwitchString, SwitchValue;
    s := QuoteForCommandLineToArgvW(argv[0]);
    var parseSwitches := true;
    var i := 1;
    while i < |argv|
      invariant 1 <= i <= |argv|
      invariant s + PrintWords(argv[i..], parseSwitches) == Quote(argv[0]) + PrintWords(argv[1..], true)
    {
      assert argv[i..][0] == argv[i] && argv[i..][1..] == argv[i + 1..];
      PrintWordsStep(argv[i..], parseSwitches);
      ghost var before, rest := s, PrintWords(argv[i + 1..], parseSwitches && argv[i] != SWITCH_TERMINATOR);
      var arg := argv[i];
      parseSwitches := parseSwitches && arg != SWITCH_TERMINATOR;
      s := s + " ";
      if parseSwitches && IsSwitch(Windows, arg) {
        s := s + SwitchString(arg);
        var switchValue := SwitchValue(arg);
        if switchValue != [] {
          switchValue := QuoteForCommandLineToArgvW(switchValue);
          s := s + ("=" + switchValue);
        }
      } else {
        arg := QuoteForCommandLineToArgvW(arg);
        s := s + arg;
      }
      assert s == before + (" " + PrintWord(argv[i], parseSwitches)) by {
        assert before + " " + SwitchString(argv[i]) + ("=" + Quote(SwitchValue(argv[i])))
               == before + (" " + (SwitchString(argv[i]) + ("=" + Quote(SwitchValue(argv[i])))));
      }
      assert s + rest == before + (" " + PrintWord(argv[i], parseSwitches) + rest);
      i := i + 1;
    }
    PrintWordsNone(parseSwitches);
    assert argv[i..] == [] && s + [] == s;
  }

  lemma PrintWordsNone(parseSwitches: bool)
    ensures PrintWords([], parseSwitches) == []
  {
  }

  lemma PrintWordsStep(argv: seq<string>, parseSwitches: bool)
    requires argv != []
    ensures var parse := parseSwitches && argv[0] != SWITCH_TERMINATOR;
            PrintWords(argv, parseSwitches) == " " + PrintWord(argv[0], parse) + PrintWords(argv[1..], parse)
  {
  }

  /** The words, each behind one space. */
  function Spaced(words: seq<string>): string {
    if words == [] then [] else " " + words[0] + Spaced(words[1..])
  }

  /** Words without space, backslash or quote are printed as they are, one space in front of each. */
  lemma {:induction false} PlainLine(argv: seq<string>, parseSwitches: bool)
    requires forall w :: w in argv ==> ' ' !in w && '\\' !in w && '"' !in w && !HasExplicitEmptyValue(w)
    ensures PrintWords(argv, parseSwitches) == Spaced(argv)
    decreases |argv|
  {
    hide Quote, SwitchString, SwitchValue, HasExplicitEmptyValue;
    if argv != [] {
      var w, parse := argv[0], parseSwitches && argv[0] != SWITCH_TERMINATOR;
      assert w in argv;
      QuoteUnchangedIff(w);
      ValueIsPlain(w);
      QuoteUnchangedIff(SwitchValue(w));
      CombineSplit(w);
      assert SwitchString(w) + ("=" + SwitchValue(w)) == SwitchString(w) + "=" + SwitchValue(w);
      assert PrintWord(w, parse) == w;
      PlainLine(argv[1..], parse);
    }
  }

  lemma ValueIsPlain(w: string)
    requires ' ' !in w && '\\' !in w && '"' !in w
    ensures ' ' !in SwitchValue(w) && '\\' !in SwitchValue(w) && '"' !in SwitchValue(w)
  {
    var n, v := Find(w, '='), SwitchValue(w);
    forall i | 0 <= i < |v|
      ensures v[i] in w
    {
      assert v[i] == w[n + 1 + i];
    }
  }

  /** A word that survives printing: a switch needs a name free of blanks and quotes and
      must not have an explicit empty value, anything else must not be empty, and a
      tab must come with something that forces quotes. */
  predicate Printable(arg: string, parseSwitches: bool) {
    if parseSwitches && IsSwitch(Windows, arg) then
      && ' ' !in SwitchString(arg) && '\t' !in SwitchString(arg) && '"' !in SwitchString(arg)
      && !HasExplicitEmptyValue(arg) && Quotable(SwitchValue(arg))
    else
      arg != [] && Quotable(arg)
  }

  predicate AllPrintable(argv: seq<string>, parseSwitches: bool) {
    argv != [] ==>
      var parse := parseSwitches && argv[0] != "--";
      Printable(argv[0], parse) && AllPrintable(argv[1..], parse)
  }

  lemma PlainMeans(s: string)
    ensures Plain(s) <==> ' ' !in s && '\t' !in s && '"' !in s
  {
    assert forall i :: 0 <= i < |s| ==> s[i] in s;
  }

  lemma ScanWord(arg: string, parse: bool, tail: string)
    requires Printable(arg, parse) && EndsWord(tail)
    ensures Scan(PrintWord(arg, parse) + tail, false) == (arg, tail)
    ensures PrintWord(arg, parse) != [] && !IsBlank(PrintWord(arg, parse)[0])
  {
    hide Scan, Quote, IsSwitch, SwitchString, SwitchValue;
    if parse && IsSwitch(Windows, arg) {
      var name, value := SwitchString(arg), SwitchValue(arg);
      SwitchNameStart(arg);
      PlainMeans(name);
      CombineSplit(arg);
      ScanEnd(tail, false);
      if value == [] {
        ScanPlain(name, tail);
        assert name + [] == name;
      } else {
        var inner := Quote(value) + tail;
        ScanQuote(value, tail);
        ScanChar('=', inner, false);
        ScanPlain(name, "=" + inner);
        assert PrintWord(arg, parse) + tail == name + ("=" + inner);
        assert name + ("=" + value) == name + "=" + value;
      }
    } else {
      QuoteFront(arg);
      ScanQuote(arg, tail);
    }
  }

  lemma SwitchNameStart(arg: string)
    requires IsSwitch(Windows, arg)
    ensures SwitchString(arg) != [] && (SwitchString(arg)[0] == '-' || SwitchString(arg)[0] == '/')
  {
    assert arg[0] == '-' || arg[0] == '/';
    assert Find(arg, '=') > 0;
  }

  lemma PrintWordsEnds(argv: seq<string>, parseSwitches: bool)
    ensures EndsWord(PrintWords(argv, parseSwitches))
  {
  }

  // ---------------------------------------------------------------------------
  // The conditions are necessary
  // ---------------------------------------------------------------------------

  predicate AllTabs(s: string) {
    forall i :: 0 <= i < |s| ==> s[i] == '\t'
  }

  /** A word ends at the first blank outside quotes. */
  lemma ScanUpToBlank(s: string, rest: string)
    requires Plain(s) && rest != [] && IsBlank(rest[0])
    ensures Scan(s + rest, false) == (s, rest)
  {
    hide Scan, Run;
    ScanPlain(s, rest);
    ScanBlank(rest);
    assert s + "" == s;
  }

  lemma ScanBlank(s: string)
    requires s != [] && IsBlank(s[0])
    ensures Scan(s, false) == ("", s)
  {
    RunIs(s, 0);
  }

  /** The first position of a blank. */
  function FirstBlank(s: string): (k: nat)
    requires exists i :: 0 <= i < |s| && IsBlank(s[i])
    ensures k < |s| && IsBlank(s[k]) && forall i :: 0 <= i < k ==> !IsBlank(s[i])
  {
    if IsBlank(s[0]) then 0
    else
      var i :| 0 <= i < |s| && IsBlank(s[i]);
      assert IsBlank(s[1..][i - 1]);
      1 + FirstBlank(s[1..])
  }

  /** Quote-free text with a blank in it yields a word shorter than the text. */
  lemma ScanStopsEarly(s: string, tail: string)
    requires '"' !in s && exists i :: 0 <= i < |s| && IsBlank(s[i])
    ensures |Scan(s + tail, false).0| < |s|
  {
    hide Scan, Run;
    var k := FirstBlank(s);
    assert s + tail == s[..k] + (s[k..] + tail);
    assert Plain(s[..k]) by {
      assert forall i :: 0 <= i < k ==> s[..k][i] == s[i] && s[i] in s;
    }
    ScanUpToBlank(s[..k], s[k..] + tail);
  }

  lemma TabStopsEarly(name: string, value: string, tail: string)
    requires Plain(name) && !NeedsQuotes(value) && '\t' in value
    ensures var text := name + ("=" + value); |Scan(text + tail, false).0| < |text|
  {
    hide Scan, Run;
    var text := name + ("=" + value);
    var i :| 0 <= i < |value| && value[i] == '\t';
    assert IsBlank(text[|name| + 1 + i]);
    assert forall j :: 0 <= j < |value| ==> !Special(value[j]);
    assert '"' !in value && '"' !in name;
    ScanStopsEarly(text, tail);
  }

  lemma NameWithBlank(name: string, rest: string)
    requires '"' !in name && !Plain(name)
    ensures |Scan(name + rest, false).0| < |name|
  {
    hide Scan, Run;
    assert forall i :: 0 <= i < |name| ==> name[i] in name;
    ScanStopsEarly(name, rest);
  }

  /** After the name comes the end of the line, a space, or the "=" of a value. */
  predicate EndsName(tail: string) {
    tail == [] || tail[0] == ' ' || tail[0] == '='
  }

  /** `p` characters of the name have been read and only `w` of `arg` produced, or they are level
      and a quote is still ahead. */
  predicate Lagging(name: string, p: nat, w: nat, inQuotes: bool, tail: string, arg: string) {
    && w <= p <= |name| && '=' !in name && name <= arg && EndsName(tail)
    && (forall i :: 0 <= i < p ==> !IsBlank(name[i]))
    && (w == p ==> !inQuotes && '"' in name[p..])
  }

  /** Reading a name with a quote in it falls behind and never catches up, because what would
      have to be produced next is never a blank or "=" at the point where the name ends. */
  lemma {:induction false} QuotedNameLags(name: string, p: nat, w: nat, inQuotes: bool, tail: string, arg: string)
    requires Lagging(name, p, w, inQuotes, tail, arg)
    ensures w <= p <= |name| <= |arg| && Scan(name[p..] + tail, inQuotes).0 != arg[w..]
    decreases |name| - p
  {
    hide Scan, Run, Lagging, EndsName;
    LagBounds(name, p, w, inQuotes, tail, arg);
    var n := Run(name[p..]);
    if p == |name| {
      LagAtEnd(name, w, inQuotes, tail, arg);
    } else if p + n < |name| && name[p + n] == '"' {
      LagNextQuote(name, p, w, inQuotes, tail, arg, n);
      QuotedNameLags(name, p + n + 1, w + (n + 1) / 2, if n % 2 == 0 then !inQuotes else inQuotes, tail, arg);
      LagOverQuote(name, p, w, inQuotes, tail, arg, n);
    } else if n > 0 {
      LagNext(name, p, w, inQuotes, tail, arg, n);
      QuotedNameLags(name, p + n, w + n, inQuotes, tail, arg);
      LagOverRun(name, p, w, inQuotes, tail, arg, n);
    } else if IsBlank(name[p]) {
      LagAtBlank(name, p, w, inQuotes, tail, arg);
    } else {
      LagNext(name, p, w, inQuotes, tail, arg, 1);
      QuotedNameLags(name, p + 1, w + 1, inQuotes, tail, arg);
      LagOverChar(name, p, w, inQuotes, tail, arg);
    }
  }

  lemma LagBounds(name: string, p: nat, w: nat, inQuotes: bool, tail: string, arg: string)
    requires Lagging(name, p, w, inQuotes, tail, arg)
    ensures w <= p <= |name| <= |arg| && w < |name| && arg[w] == name[w] && EndsName(tail)
    ensures name[w] != '=' && (w < p ==> !IsBlank(name[w]))
  {
    assert name[w] in name;
  }

  lemma LagNextQuote(name: string, p: nat, w: nat, inQuotes: bool, tail: string, arg: string, n: nat)
    requires Lagging(name, p, w, inQuotes, tail, arg) && p + n < |name| && n == Run(name[p..]) && name[p + n] == '"'
    ensures Lagging(name, p + n + 1, w + (n + 1) / 2, if n % 2 == 0 then !inQuotes else inQuotes, tail, arg)
  {
    hide Run;
    assert forall i :: p <= i < p + n ==> name[i] == name[p..][i - p];
  }

  /** Characters that are neither quotes nor blanks are copied. */
  lemma LagNext(name: string, p: nat, w: nat, inQuotes: bool, tail: string, arg: string, n: nat)
    requires Lagging(name, p, w, inQuotes, tail, arg) && p + n <= |name|
    requires n == Run(name[p..]) || (n == 1 && name[p] != '"' && !IsBlank(name[p]))
    ensures Lagging(name, p + n, w + n, inQuotes, tail, arg)
  {
    hide Run;
    assert forall i :: p <= i < p + n ==> name[i] == name[p..][i - p];
    QuoteStaysAhead(name, p, n);
  }

  /** A blank ends the word too early, or is not what has to come next. */
  lemma LagAtBlank(name: string, p: nat, w: nat, inQuotes: bool, tail: string, arg: string)
    requires Lagging(name, p, w, inQuotes, tail, arg) && p < |name| && IsBlank(name[p])
    ensures w <= |arg| && Scan(name[p..] + tail, inQuotes).0 != arg[w..]
  {
    hide Scan, Lagging;
    LagBounds(name, p, w, inQuotes, tail, arg);
    if inQuotes {
      assert w < p by { LagInQuotes(name, p, w, inQuotes, tail, arg); }
      LagOverChar(name, p, w, inQuotes, tail, arg);
    } else {
      ScanBlank(name[p..] + tail);
    }
  }

  lemma LagInQuotes(name: string, p: nat, w: nat, inQuotes: bool, tail: string, arg: string)
    requires Lagging(name, p, w, inQuotes, tail, arg)
    ensures inQuotes || p == |name| ==> w < p
  {
  }

  lemma LagOverQuote(name: string, p: nat, w: nat, inQuotes: bool, tail: string, arg: string, n: nat)
    requires w <= p && p + n < |name| <= |arg| && n == Run(name[p..]) && name[p + n] == '"'
    requires Scan(name[p + n + 1..] + tail, if n % 2 == 0 then !inQuotes else inQuotes).0 != arg[w + (n + 1) / 2..]
    ensures Scan(name[p..] + tail, inQuotes).0 != arg[w..]
  {
    hide Scan, Run;
    var s, after := name[p..], name[p + n + 1..];
    RunSplit(s);
    assert s[n..] == "\"" + after;
    assert s + tail == Backslashes(n) + "\"" + (after + tail);
    ScanRunQuote(n, after + tail, inQuotes);
    var word := Scan(after + tail, if n % 2 == 0 then !inQuotes else inQuotes).0;
    SameTail(Backslashes(n / 2) + (if n % 2 == 0 then "" else "\""), word, arg, w);
  }

  lemma LagOverRun(name: string, p: nat, w: nat, inQuotes: bool, tail: string, arg: string, n: nat)
    requires w <= p && p + n <= |name| <= |arg| && n == Run(name[p..]) && EndsName(tail)
    requires p + n < |name| ==> name[p + n] != '"'
    requires Scan(name[p + n..] + tail, inQuotes).0 != arg[w + n..]
    ensures Scan(name[p..] + tail, inQuotes).0 != arg[w..]
  {
    hide Scan, Run;
    var s, after := name[p..], name[p + n..];
    RunSplit(s);
    assert s[n..] == after;
    Assoc(Backslashes(n), after, tail);
    ScanRunOther(n, after + tail, inQuotes);
    SameTail(Backslashes(n), Scan(after + tail, inQuotes).0, arg, w);
  }

  lemma LagOverChar(name: string, p: nat, w: nat, inQuotes: bool, tail: string, arg: string)
    requires w <= p < |name| <= |arg| && name[p] != '"' && name[p] != '\\' && (inQuotes || !IsBlank(name[p]))
    requires Scan(name[p + 1..] + tail, inQuotes).0 != arg[w + 1..] || name[p] != arg[w]
    ensures Scan(name[p..] + tail, inQuotes).0 != arg[w..]
  {
    hide Scan, Run;
    var after := name[p + 1..];
    assert name[p..] + tail == [name[p]] + (after + tail);
    ScanChar(name[p], after + tail, inQuotes);
    SameTail([name[p]], Scan(after + tail, inQuotes).0, arg, w);
    assert arg[w..][0] == arg[w];
  }

  lemma LagAtEnd(name: string, w: nat, inQuotes: bool, tail: string, arg: string)
    requires Lagging(name, |name|, w, inQuotes, tail, arg)
    ensures w <= |arg| && Scan(name[|name|..] + tail, inQuotes).0 != arg[w..]
  {
    hide Scan, Run, Lagging;
    LagBounds(name, |name|, w, inQuotes, tail, arg);
    LagInQuotes(name, |name|, w, inQuotes, tail, arg);
    assert name[|name|..] + tail == tail && arg[w..][0] == name[w];
    if tail == [] || (tail[0] == ' ' && !inQuotes) {
      ScanEnd(tail, inQuotes);
    } else {
      ScanChar(tail[0], tail[1..], inQuotes);
      assert tail == [tail[0]] + tail[1..];
    }
  }

  lemma QuoteStaysAhead(name: string, p: nat, n: nat)
    requires p + n <= |name| && forall i :: p <= i < p + n ==> name[i] != '"'
    ensures '"' in name[p..] ==> '"' in name[p + n..]
  {
    if '"' in name[p..] {
      var i :| 0 <= i < |name[p..]| && name[p..][i] == '"';
      assert name[p + i] == '"';
      assert name[p + n..][i - n] == '"';
    }
  }

  /** Two texts that agree from `w` on agree after what has been produced since. */
  lemma SameTail(front: string, word: string, arg: string, w: nat)
    requires w <= |arg|
    ensures front + word == arg[w..] ==> w + |front| <= |arg| && word == arg[w + |front|..]
  {
    if front + word == arg[w..] {
      assert word == (front + word)[|front|..];
    }
  }

  /** A switch that is not printable does not come back. */
  lemma BadSwitch(arg: string, tail: string)
    requires IsSwitch(Windows, arg) && !Printable(arg, true) && EndsWord(tail)
    ensures Scan(PrintWord(arg, true) + tail, false).0 != arg
  {
    hide Scan, Run, IsSwitch, NeedsQuotes, Plain;
    var name, value := SwitchString(arg), SwitchValue(arg);
    var after := if value == [] then [] else "=" + Quote(value);
    Assoc(name, after, tail);
    PlainMeans(name);
    NeedsQuotesIff(value);
    if '"' in name {
      assert name[0..] == name && arg[0..] == arg && '=' !in name;
      QuotedNameLags(name, 0, 0, false, after + tail, arg);
    } else if !Plain(name) {
      NameWithBlank(name, after + tail);
    } else if HasExplicitEmptyValue(arg) {
      ScanPlain(name, tail);
      ScanEnd(tail, false);
      assert name + "" == name;
    } else {
      TabStopsEarly(name, value, tail);
    }
  }

  /** Raw text without special characters: the first word, if the text has one, is free of tabs. */
  lemma {:induction false} ParseRaw(text: string, tail: string)
    requires !NeedsQuotes(text) && EndsWord(tail)
    ensures AllTabs(text) ==> ParseArgs(text + tail) == ParseArgs(tail)
    ensures !AllTabs(text) ==>
              && ParseArgs(text + tail) != []
              && ParseArgs(text + tail)[0] != [] && '\t' !in ParseArgs(text + tail)[0]
    decreases |text|
  {
    hide Scan;
    if text == [] {
      assert text + tail == tail;
    } else {
      assert forall i :: 0 <= i < |text| ==> !Special(text[i]);
      var whole := text + tail;
      if IsBlank(text[0]) {
        assert forall i :: 0 <= i < |text| - 1 ==> text[1..][i] == text[i + 1];
        ParseRaw(text[1..], tail);
        assert whole[1..] == text[1..] + tail;
        assert AllTabs(text) <==> AllTabs(text[1..]);
      } else {
        ScanRaw(text, tail);
      }
    }
  }

  lemma ScanRaw(text: string, tail: string)
    requires !NeedsQuotes(text) && EndsWord(tail) && text != [] && !IsBlank(text[0])
    ensures var word := Scan(text + tail, false).0; word != [] && '\t' !in word
  {
    hide Scan, Run;
    assert forall i :: 0 <= i < |text| ==> !Special(text[i]);
    if '\t' in text {
      var k := FirstBlank(text);
      assert text + tail == text[..k] + (text[k..] + tail);
      ScanUpToBlank(text[..k], text[k..] + tail);
    } else {
      ScanPlain(text, tail);
      ScanEnd(tail, false);
      assert text + "" == text;
    }
  }

  /** The first word read from a printed list is never empty and never only tabs. */
  lemma {:induction false} FirstWordVisible(argv: seq<string>, parseSwitches: bool)
    ensures var words := ParseArgs(PrintWords(argv, parseSwitches)); words != [] ==> !AllTabs(words[0])
    decreases |argv|
  {
    hide Scan, PrintWord;
    if argv != [] {
      var parse := parseSwitches && argv[0] != SWITCH_TERMINATOR;
      var word, tail := PrintWord(argv[0], parse), PrintWords(argv[1..], parse);
      FirstWordVisible(argv[1..], parse);
      PrintWordsEnds(argv[1..], parse);
      var line := PrintWords(argv, parseSwitches);
      assert line == " " + (word + tail) && line[1..] == word + tail;
      FirstWordOf(argv[0], parse, tail);
    }
  }

  lemma FirstWordOf(arg: string, parse: bool, tail: string)
    requires EndsWord(tail)
    requires ParseArgs(tail) != [] ==> !AllTabs(ParseArgs(tail)[0])
    ensures var words := ParseArgs(PrintWord(arg, parse) + tail); words != [] ==> !AllTabs(words[0])
  {
    hide Scan, Run, Quote, SwitchString, SwitchValue;
    var word := PrintWord(arg, parse);
    if parse && IsSwitch(Windows, arg) {
      SwitchNameStart(arg);
      var whole := word + tail;
      assert whole[0] == SwitchString(arg)[0] && whole == [whole[0]] + whole[1..];
      ScanChar(whole[0], whole[1..], false);
      assert ParseArgs(whole)[0][0] == whole[0];
    } else if NeedsQuotes(arg) {
      NeedsQuotesIff(arg);
      ScanQuote(arg, tail);
      QuoteFront(arg);
      assert (word + tail)[0] == word[0];
      var i :| 0 <= i < |arg| && Special(arg[i]);
    } else {
      assert word == arg by { QuoteRaw(arg); }
      ParseRaw(arg, tail);
      if !AllTabs(arg) {
        var first := ParseArgs(word + tail)[0];
        assert first[0] in first;
      }
    }
  }

  lemma QuoteRaw(arg: string)
    requires !NeedsQuotes(arg)
    ensures Quote(arg) == arg
  {
  }

  /** A word that is not printable does not come back. */
  lemma BadWord(arg: string, parse: bool, tail: string)
    requires !Printable(arg, parse) && EndsWord(tail)
    requires ParseArgs(tail) != [] ==> !AllTabs(ParseArgs(tail)[0])
    ensures var words := ParseArgs(PrintWord(arg, parse) + tail); words == [] || words[0] != arg
  {
    hide Scan, Run, SwitchString, SwitchValue, HasExplicitEmptyValue;
    if parse && IsSwitch(Windows, arg) {
      BadSwitch(arg, tail);
      SwitchNameStart(arg);
      assert (PrintWord(arg, parse) + tail)[0] == SwitchString(arg)[0];
    } else {
      NeedsQuotesIff(arg);
      QuoteRaw(arg);
      ParseRaw(arg, tail);
    }
  }

  /** Reading the printed switches and arguments gives back exactly the words of argv
      if and only if every word is printable. */
  lemma {:induction false} RoundTripIff(argv: seq<string>, parseSwitches: bool)
    ensures ParseArgs(PrintWords(argv, parseSwitches)) == argv <==> AllPrintable(argv, parseSwitches)
    decreases |argv|
  {
    hide Scan, PrintWord, Printable;
    if argv != [] {
      var parse := parseSwitches && argv[0] != SWITCH_TERMINATOR;
      var word, tail := PrintWord(argv[0], parse), PrintWords(argv[1..], parse);
      RoundTripIff(argv[1..], parse);
      FirstWordVisible(argv[1..], parse);
      PrintWordsEnds(argv[1..], parse);
      var line := PrintWords(argv, parseSwitches);
      assert line == " " + (word + tail) && line[1..] == word + tail;
      if Printable(argv[0], parse) {
        ScanWord(argv[0], parse, tail);
        assert (word + tail)[0] == word[0];
        assert ParseArgs(line) == [argv[0]] + ParseArgs(tail);
      } else {
        BadWord(argv[0], parse, tail);
      }
    }
  }
}
