# Chromium `base/`: verified model of its hard core

This project models six parts of Chromium's `base/` library in Dafny and proves what they promise.

* **File-descriptor shuffle** (`FdShuffleSpec`, `FdShuffleRuns`, `FdShuffleLowest`, `FdShuffle`). A list of arcs source -> dest is performed by
  sequential dup, dup2 and close, rewriting the later arcs in place. The model keeps the arc array, the 16-entry
  array of temporaries and a delegate that owns a descriptor table. The delegate may fail at any time and may hand out
  any closed number as a duplicate. On success the final table is described exactly, for any number of arcs with
  cycles, chains and fan-out. The code fails to perform the simultaneous assignment in two ways: an identity arc can
  lose its dest, and a duplicate can take the number of a dest that is still closed. Both are turned into conditions on
  the arcs and the initial table, and every run performs the assignment if and only if neither condition arises. For
  dup(), which hands out the lowest closed number, the duplicates are computed from the input and decide the matter.
* **FilePath** (`FilePath`, `FilePathComponents`, `FilePathExtension`). Stripping, DirName, BaseName, Append,
  GetComponents, IsParent, AppendRelativePath and extensions. The path laws are stated for all four combinations of
  drive letters and Windows separators unless a row says otherwise. Drive specifications and separators follow
  `base/file_path.cc`; pathname conventions are those of sections 3.266 and 4.12 of The Open Group Base Specifications
  Issue 7.
* **CommandLine** (`CommandLineSyntax`, `ArgvQuoting`, `CommandLineState`, `CommandLinePartition`, `CommandLine`). The
  Windows printer against a reader that follows the documented CommandLineToArgvW rules, the stable partition of argv,
  and the switch index that must agree with the switch section of argv over every run of operations.
* **Directory traversal and recursive delete** (`FileTree`, `FileSystem`, `FileEnumerator`, `DeleteTree`). The
  resumable enumerator over a finite tree of directories, files and symbolic links, whatever order directories are
  listed in, and the deletion that relies on the order in which entries come out. Every system call resolves its path
  anew in the tree as it then is, so that removing a link breaks the paths that go through it: stat and opendir follow
  links, at most `maxLinks` of them, while lstat, unlink and rmdir do not follow the last name. rmdir on a link fails,
  with or without a trailing separator, as it does on Linux.
* **Lock-free retry loops** (`Atomics`, `SequenceNumber`, `RefCount`). The ARM loops as steps of any number of
  threads, with spurious failures of the kernel call, and their two clients.
* **CancelableCallback and binary logarithms** (`CancelableCallbackSpec`, `CancelableCallback`, `Bits`).

Code that updates objects, arrays or variables is modelled by classes and methods with loops, each proved against a
specification on values; the laws are lemmas about those specifications. Ghost fields (`handedOut`, `failures`,
`rmdirsOfNonEmpty`, `rmdirsOfOthers`, `unlinksOfDirectories`, `lostPaths`, `refusals`, `trace`, `hist`) only record what happened. `Common` holds
an option type and distinctness of a sequence.

Code and documentation disagree in one place: `base/file_path.h:218-226` says that RemoveExtension followed by
Extension gives back every path. `FilePathExtension.RemoveThenAddExtension` proves exactly when it does, and
`TrailingSeparatorCorner` is a path for which it does not. `base/file_descriptor_shuffle.cc` states no condition on
identity arcs or on the numbers dup() hands out; `UnsafeIdentityIsClosed` and `LowestDescriptorIsADest` are runs in
which a requested dest ends up closed. Recursive Delete on a link to a directory always reports failure, but removes what
is in the directory: all of it, unless one of the links on the way lies in the directory and is removed first, as in
`LinkOnTheWay`. On a link that leads nowhere Delete reports success and keeps the link.

File systems, descriptor tables and thread schedules are parameters, and failures of system calls are
non-deterministic.

## Model

| member | source | states |
|---|---|---|
| FdShuffleSpec.InvInitially | base/file_descriptor_shuffle.cc:16-24 | With distinct dests and open sources, the shuffle invariant holds before the first arc |
| FdShuffleSpec.StepKeepsInv | base/file_descriptor_shuffle.cc:24-68 | Every iteration keeps the invariant: arcs still to do read the file their source had at the start, finished dests hold the right file, close requests are neither lost nor invented, nothing else changes |
| FdShuffleSpec.NeedsTempIff | base/file_descriptor_shuffle.cc:36-41 | Redirecting arcs never changes which iterations need a duplicate, as long as duplicates avoid the dests |
| FdShuffleSpec.OutcomeFromInv | base/file_descriptor_shuffle.cc:70-73 | The invariant after the last arc, and closing the recorded temporaries, give the exact final table |
| FdShuffleSpec.ClosesDestIff | base/file_descriptor_shuffle.cc:52-67 | The shuffle closes one of its own dests exactly when an identity arc precedes another reader of its descriptor and either is marked close |
| FdShuffleSpec.AssignedIffSafe | base/file_descriptor_shuffle.cc:24-73 | If no duplicate is a dest, every dest ends with what its source held at the start, if and only if identity arcs are safe |
| FdShuffleSpec.AssignedIffFresh | base/file_descriptor_shuffle.cc:36-71 | For given duplicates and safe identity arcs, the simultaneous assignment is performed if and only if no duplicate that is closed at the end is a dest; a step towards AlwaysAssignsIff, which says when that can happen |
| FdShuffleSpec.ClosesNonDestIff | base/file_descriptor_shuffle.cc:52-67 | A source that is not a dest is closed exactly when some arc marks it |
| FdShuffleRuns.AfterInv | base/file_descriptor_shuffle.cc:24-68 | The invariant holds after any number of iterations, whatever closed numbers duplicates get |
| FdShuffleRuns.RunOutcome | base/file_descriptor_shuffle.cc:16-74 | The final table of every run is exactly `Outcome` |
| FdShuffleRuns.AfterCount | base/file_descriptor_shuffle.cc:36-46 | As long as duplicates avoid the dests, there is one for each arc that overwrites a descriptor read later |
| FdShuffleRuns.AfterCopies | base/file_descriptor_shuffle.cc:38-49 | Each duplicate refers to what the dest it was made for held at the start |
| FdShuffleRuns.LeakedHolds | base/file_descriptor_shuffle.cc:42-45 | A duplicate beyond the sixteenth stays open at the end, on that file |
| FdShuffleRuns.TakenDest | base/file_descriptor_shuffle.cc:38-41 | A duplicate can only take the dest of a later arc that was closed at the start |
| FdShuffleRuns.NotExposed | base/file_descriptor_shuffle.cc:36-46 | Unless the arcs are exposed (some arc needs a recorded duplicate while the dest of a later arc is a closed number) no recorded duplicate is a dest, in any run |
| FdShuffleRuns.CarryOn | base/file_descriptor_shuffle.cc:24-68 | Every run can be carried on so that further duplicates avoid the dests |
| FdShuffleRuns.ExposedFails | base/file_descriptor_shuffle.cc:36-71 | If the arcs are exposed, some run leaves a dest closed |
| FdShuffleRuns.RunAssigns | base/file_descriptor_shuffle.cc:16-74 | Every run with safe identity arcs that are not exposed performs the simultaneous assignment |
| FdShuffleRuns.AlwaysAssignsIff | base/file_descriptor_shuffle.cc:16-74 | Every run performs the simultaneous assignment, if and only if identity arcs are safe and the arcs are not exposed: a condition on arcs and initial table alone |
| FdShuffleRuns.ParallelIff | base/file_descriptor_shuffle.cc:16-74 | In a run whose duplicates avoid the dests the whole final table is that of one parallel assignment, if and only if identity arcs are safe and at most 16 dests have to be saved |
| FdShuffleRuns.RunIsParallel | base/file_descriptor_shuffle.cc:16-74 | Every run with safe identity arcs that are not exposed and at most 16 dests to be saved leaves exactly the table of the parallel assignment |
| FdShuffleRuns.AlwaysParallelIff | base/file_descriptor_shuffle.cc:16-74 | Every run leaves exactly that table, if and only if identity arcs are safe, the arcs are not exposed and at most 16 dests have to be saved |
| FdShuffleRuns.LowestDescriptorIsADest | base/file_descriptor_shuffle.cc:38-41 | A concrete run in which the duplicate gets the lowest closed number, which is a dest still to be filled: that dest is closed at the end |
| FdShuffleRuns.UnsafeIdentityIsClosed | base/file_descriptor_shuffle.cc:66-67 | A concrete identity arc whose dest is closed by a later closing reader, in every run |
| FdShuffleLowest.LeastIsLeast | base/file_descriptor_shuffle.cc:82-85 | The number found is the lowest closed one |
| FdShuffleLowest.OpenAre | base/file_descriptor_shuffle.cc:24-68 | Which descriptors are open before an iteration, read off the arcs, the initial table and the duplicates without performing the moves |
| FdShuffleLowest.LowestRunExists | base/file_descriptor_shuffle.cc:82-85 | There is a run in which every duplicate gets the lowest closed descriptor |
| FdShuffleLowest.LowestAgree | base/file_descriptor_shuffle.cc:36-41 | Its duplicates are those computed from the input, up to the first that is a dest |
| FdShuffleLowest.LowestAssignsIff | base/file_descriptor_shuffle.cc:16-85 | With safe identity arcs that run performs the simultaneous assignment, if and only if none of the first 16 duplicates computed from the input is a dest |
| FdShuffleLowest.UnsafeNeverAssigns | base/file_descriptor_shuffle.cc:52-67 | With an unsafe identity arc no run that makes at most 16 duplicates performs it |
| FdShuffle.InjectionDelegate.Duplicate | base/file_descriptor_shuffle.cc:82-85 | Opens a closed number on the same file, or fails and changes nothing |
| FdShuffle.InjectionDelegate.Move | base/file_descriptor_shuffle.cc:87-89 | Makes dest refer to what src refers to, or fails and changes nothing |
| FdShuffle.InjectionDelegate.Close | base/file_descriptor_shuffle.cc:91-94 | Removes one open descriptor |
| FdShuffle.RedirectReaders | base/file_descriptor_shuffle.cc:33-59 | The inner loop rewrites the later arcs exactly as `Redirect` says, duplicates at most once and records the duplicate if there is room; only open descriptors are duplicated |
| FdShuffle.MoveAndClose | base/file_descriptor_shuffle.cc:61-67 | The move and the close of one arc; a failure changes nothing |
| FdShuffle.PerformArc | base/file_descriptor_shuffle.cc:24-68 | One iteration refines `Step`; on failure only a duplicate may have been added |
| FdShuffle.CloseRecorded | base/file_descriptor_shuffle.cc:70-71 | Closes exactly the recorded temporaries, each of them open |
| FdShuffle.PerformInjectiveMultimapDestructive | base/file_descriptor_shuffle.cc:16-74 | Succeeds if and only if no delegate call failed, and has then made one of the runs on values, leaving exactly the table `Outcome`; with safe identity arcs that are not exposed this is the simultaneous assignment, and with at most 16 dests to be saved the whole table of the parallel assignment; it stops at the first failure, with the iterations before it done, at most one duplicate after them, and everything but dests, duplicates and closed sources as before; every delegate call acts on an open descriptor |
| FdShuffle.PerformInjectiveMultimap | base/file_descriptor_shuffle.cc:76-80 | The same for the copying form |
| FilePath.StripTrailingSeparatorsInternal | base/file_path.cc:1199-1219 | The loop computes the closed form: after the drive, an all-separator name keeps one separator, or two if there are exactly two; any other name loses all trailing separators |
| FilePath.StripShape | base/file_path.cc:504-509 | Stripping removes only separators at the end, keeps the drive, and never empties a path |
| FilePath.StripExact | base/file_path.cc:1199-1219 | After a drive: a name loses all separators behind it, one or two separators alone stay, three or more alone become one |
| FilePath.SeparatorsAre | base/file_path.cc:32-36 | Slashes separate everywhere, backslashes with Windows separators, nothing else |
| FilePath.DriveIs | base/file_path.cc:54-65 | A drive is one ASCII letter and a colon |
| FilePath.StripFixed | base/file_path.cc:504-509 | A path is unchanged exactly when nothing can be stripped, so stripping is idempotent |
| FilePath.AppendShape | base/file_path.cc:453-485 | Appending a name to nothing or "." gives the name; appending any word to another directory gives the stripped directory, a canonical separator unless it ends in one or is a drive, and the word |
| FilePath.AppendExact | base/file_path.cc:453-485 | Appending any component at all: nothing or "." in front leaves it as it is; otherwise it follows the stripped directory, with the canonical separator between them unless it is empty, or the directory ends in a separator or is a drive |
| FilePath.BaseNameOfAppend | base/file_path.cc:342-363 | BaseName of d.Append(b) is b, for every d and every separator-free word b (with nothing or "." in front of it, b must not start with a drive) |
| FilePath.DirNameOfAppend | base/file_path.cc:306-340 | DirName of d.Append(b) is d stripped, or "." for an empty d, for the same d and b |
| FilePath.DirNameOfRooted | base/file_path.cc:320-333 | The directory of a word behind n root separators keeps two of them if n is 2 or 3, otherwise one |
| FilePath.SplitReassembles | base/file_path.cc:306-363 | A path that does not strip to a root is its DirName, separators only, and its BaseName |
| FilePath.DirNameShape | base/file_path.cc:306-340 | DirName is never empty, is stripped, and is "." or a prefix with the same drive |
| FilePath.DirNameFixpoints | base/file_path.cc:306-340 | DirName leaves a path alone exactly when it is "." or a root |
| FilePath.DirNameProgress | base/file_path.cc:306-340 | One DirName step reaches a fixpoint or shortens the path |
| FilePath.IterateReachesFixpoint | base/file_path.cc:232-237 | Iterating DirName reaches "." or a root within length + 1 steps |
| FilePath.DirNameRankDrops | base/file_path.cc:232-237 | A rank that every proper DirName step lowers, so the loops over DirName end |
| FilePath.CollectParents | base/file_util_posix.cc:552-559 | The ancestor loop ends with the chain of parents from the path to "." or a root, at most length + 2 of them |
| FilePath.TripleSeparatorCorner | base/file_path.cc:321-328 | DirName of "///a" is "//" |
| FilePathComponents.SameAsDirName | base/file_path.cc:68-84 | Case-insensitive drive comparison never makes a path equal to a different DirName |
| FilePathComponents.GetComponents | base/file_path.cc:219-252 | The loop computes the component list and terminates on every path |
| FilePathComponents.ComponentsOfRoot | base/file_path.cc:239-249 | A root has its drive and its separators as components |
| FilePathComponents.ComponentsSplit | base/file_path.cc:232-237 | A path that does not strip to a root and is not "." has the components of its DirName, then its BaseName |
| FilePathComponents.ComponentsOfAppend | base/file_path.cc:219-252 | Appending a word to a stripped non-empty path adds exactly that component (to "." only a name other than ".") |
| FilePathComponents.ComponentsOfFold | base/file_path.cc:295-299 | Appending a list of words adds exactly that list |
| FilePathComponents.ComponentsShape | base/file_path.cc:219-252 | The components of every path are those of "." or of a root, then separator-free words |
| FilePathComponents.ComponentsOfWord | base/file_path.cc:219-252 | A word on its own has itself as its only component, unless it starts with a drive and goes on |
| FilePathComponents.RebuildIff | base/file_path.cc:219-252 | Folding Append over the components of any path gives the same components, if and only if the first is not "." and not a longer word that starts with a drive |
| FilePathComponents.AppendRelativePath | base/file_path.cc:258-300 | Succeeds exactly when parent is a parent of child, and then appends the remaining components |
| FilePathComponents.IsParentIff | base/file_path.cc:254-300 | IsParent is "non-empty proper prefix of components", a drive in the first place being compared without case; without drive letters there is no exception |
| FilePathComponents.DrivesMatch | base/file_path.cc:276-283 | Two drives match exactly if they have the same letter in whatever case |
| FilePathComponents.IsParentOrder | base/file_path.cc:254-300 | IsParent is a strict partial order, with drive letters too |
| FilePathComponents.NoDriveNoRoot | base/file_path.cc:258-300 | Without drive letters no root is among the child's remaining components |
| FilePathComponents.ComponentsOfStripped | base/file_path.cc:219-252 | Trailing separators do not change the components, except those of "./" |
| FilePathComponents.RelativeWithRoot | base/file_path.cc:295-299 | If a root is among the appended components, it goes into the path as `RootAppended` says, and the words follow |
| FilePathComponents.RootAppended | base/file_path.cc:453-485 | What a path becomes when root separators are appended and stripped again: a bare drive takes them, a root stays a root, any other path loses them |
| FilePathComponents.RelativeIff | base/file_path.cc:258-300 | AppendRelativePath extends the components of a stripped path by exactly the child's remaining ones, if and only if no root is among them or the path is a bare drive |
| FilePathComponents.RelativeFromParent | base/file_path.cc:258-300 | Starting from the parent it arrives at the child's components, up to the case of a drive letter, under the same if-and-only-if condition |
| FilePathComponents.CurrentDirectoryCorner | base/file_path.cc:232-242 | "." has no components while "./" has one |
| FilePathComponents.DriveNameCorner | base/file_path.cc:219-252 | With drive letters "./C:x" has the one component "C:x", which cannot be rebuilt from |
| FilePathExtension.ExtensionStartsWithOneDot | base/file_path.h:218-220 | A non-empty extension starts with precisely one dot |
| FilePathExtension.SingleExtensionRule | base/file_path.cc:121-133 | With one dot in the base name the extension is everything from it |
| FilePathExtension.NoExtension | base/file_path.cc:121-132 | A base name without a dot, "." and ".." have no extension |
| FilePathExtension.DoubleExtensionRule | base/file_path.cc:135-159 | The last two words are the extension exactly when the last is gz, z or bz2 in any case and the other has 1 to 4 characters |
| FilePathExtension.CommonDoubleExtensions | base/file_path.cc:48-48 | The words that make a double extension are gz, z and bz2, in any case |
| FilePathExtension.PositionShift | base/file_path.cc:365-383 | The dot found in the whole path is the dot found in the base name |
| FilePathExtension.RemoveThenAddExtension | base/file_path.cc:365-383 | RemoveExtension followed by Extension gives the path, if and only if it has no strippable trailing separator or no extension |
| FilePathExtension.RemoveExtensionUnstripped | base/file_path.cc:374-383 | With strippable trailing separators RemoveExtension cuts at the last dot, double extension or not |
| FilePathExtension.TrailingSeparatorCorner | base/file_path.h:220-223 | A path with a trailing separator for which the documented equation fails |
| CommandLineSyntax.CombineSplit | base/command_line.cc:48-61 | Splitting a switch and combining it again gives it back, except that the "=" of an explicit empty value is dropped |
| CommandLineSyntax.ExplicitEmptyIs | base/command_line.cc:56-59 | An explicit empty value is an only "=" at the very end |
| CommandLineSyntax.PrefixIs | base/command_line.cc:30-44 | The prefixes are "--", "-" and on Windows "/" |
| CommandLineSyntax.SplitCombine | base/command_line.cc:48-61 | Combining and splitting gives back name and value when the name has no "=" |
| ArgvQuoting.QuoteForCommandLineToArgvW | base/command_line.cc:98-138 | The index loops compute the recursive quoting function |
| ArgvQuoting.QuoteUnchangedIff | base/command_line.cc:101-104 | An argument is printed as it is, if and only if it has no space, no backslash and no quote |
| ArgvQuoting.QuoteLength | base/command_line.cc:106-137 | Quotes cost two characters and one for each quote and each backslash of a run before a quote or the end |
| ArgvQuoting.ScanQuoteBody | base/command_line.cc:106-135 | Inside quotes, the printed form reads back as the argument, for all runs of backslashes |
| ArgvQuoting.ScanQuote | base/command_line.cc:98-138 | A quoted argument reads back as itself wherever it ends a word |
| ArgvQuoting.QuoteRoundTrip | base/command_line.cc:98-138 | Reading one quoted argument gives that argument, if and only if it is not empty and has a tab only with a space, backslash or quote |
| ArgvQuoting.GetCommandLineString | base/command_line.cc:225-255 | The printing loop computes the quoted program followed by the printed words |
| ArgvQuoting.PlainLine | base/command_line.cc:231-253 | Words without space, backslash or quote are printed as they are, one space in front of each |
| ArgvQuoting.QuotedNameLags | base/command_line.cc:238-245 | A switch whose name contains a quote never reads back as itself |
| ArgvQuoting.RoundTripIff | base/command_line.cc:225-255 | Reading the printed words gives exactly argv after the program, if and only if every switch name is free of blanks and quotes, no switch has an explicit empty value, no plain argument is empty, and every tab comes with something that forces quotes |
| CommandLineState.Trim | base/string_util.cc:213-243 | The result has no whitespace at its ends; a trimmed string is unchanged |
| CommandLineState.TrimWhere | base/string_util.cc:213-243 | Only whitespace at the two ends is cut off |
| CommandLineState.WhitespaceIs | base/string_util.cc:155-163 | Whitespace is space, tab, newline, vertical tab, form feed and carriage return |
| CommandLineState.PiecesAre | base/string_split.cc:14-33 | The pieces of a wrapper are, in order and trimmed, space-free texts that joined with spaces give the wrapper back |
| CommandLineState.SplitIsEmptyIff | base/string_split.cc:26-29 | A wrapper splits into nothing exactly if it has no space and nothing but whitespace |
| CommandLineState.PrefixesAgree | base/command_line.cc:37-44 | A bare name is indexed under itself whichever prefix it was given |
| CommandLineState.SwitchWordParses | base/command_line.cc:304-321 | The stored word parses back to the key and value that were indexed |
| CommandLineState.SwitchWordIs | base/command_line.cc:312-318 | The stored word is the name, "--" in front unless it starts with "-", and "=" and the value behind unless it is empty |
| CommandLineState.AppendSwitchIndexed | base/command_line.cc:304-321 | Appending a switch keeps index and argv in agreement, if and only if its name has no "=" |
| CommandLineState.AppendWordsIndexed | base/command_line.cc:64-84 | Parsing and appending any words keeps the agreement |
| CommandLineState.CopySwitchesIndexed | base/command_line.cc:332-339 | Copying switches keeps it, if and only if no copied name has "=" |
| CommandLineState.CopySwitchesShape | base/command_line.cc:332-339 | Copying inserts exactly the words of the names the source has, at the divider and in order |
| CommandLineState.CopiedKeys | base/command_line.cc:332-339 | Exactly their keys are added to the index |
| CommandLineState.CopiedValue | base/command_line.cc:332-339 | The value found afterwards is the source's, if no later name has the same key |
| CommandLineState.CopiesFromIndexed | base/command_line.cc:332-339 | Copying from a command line that is itself in agreement is always safe |
| CommandLineState.CopyOwnIndexed | base/command_line.cc:332-339 | So is copying from itself |
| CommandLineState.CopyOwnIsCopy | base/command_line.cc:332-339 | Copying from itself by bare names is copying from the index as it was |
| CommandLineState.OwnRoundsNeverEnd | base/command_line.cc:67-83 | Appending a command line to itself never ends once it has a word after the program |
| CommandLineState.PrependWrapperIndexed | base/command_line.cc:376-386 | Prepending a wrapper shifts the section and keeps the agreement |
| CommandLineState.ApplyIndexed | base/command_line.cc:295-386 | One operation keeps the agreement, if and only if it adds no name with "=" |
| CommandLineState.RunIndexed | base/command_line.cc:261-386 | After any run of operations the index is the last-wins map of the switch section, if and only if no operation added a name with "=" |
| CommandLineState.ReparseLookup | base/command_line.cc:265-267 | A lookup in that map finds the last word of the section with the key |
| CommandLinePartition.AppendWordsShape | base/command_line.cc:64-84 | The loop inserts switches at the divider and adds everything else at the end, in order |
| CommandLinePartition.LoopIsPartition | base/command_line.cc:64-84 | What the loop does is: cut at the first "--", then filter the first part |
| CommandLinePartition.FilterOne | base/command_line.cc:73-82 | A word is a switch exactly if it starts with "-" |
| CommandLinePartition.FilterConcat | base/command_line.cc:67-83 | Both filters take a list part by part, so they keep the order and lose nothing |
| CommandLinePartition.AppendArgumentsShape | base/command_line.cc:369-374 | Appending another command line keeps the program unless it is to be replaced, puts the other's leading switches at the divider and its other words at the end, each in order |
| CommandLinePartition.StablePartition | base/command_line.cc:218-223 | InitFromArgv on a fresh object gives program, switches before the first "--", all other words, each in order |
| CommandLinePartition.ArgsAfterInit | base/command_line.cc:341-350 | GetArgs then gives the other words without that "--" only |
| CommandLinePartition.NoEmptyValues | base/command_line.cc:218-223 | Without explicit empty values no word is rewritten and initialising again reproduces the state |
| CommandLinePartition.ReinitIff | base/command_line.cc:218-223 | Initialising again from argv() reproduces argv, divider and index, if and only if every stored switch is trimmed and is not "--" |
| CommandLinePartition.StaleIndexIff | base/command_line.cc:218-223 | On an object that already has switches, the result is in agreement if and only if every old key is set again |
| CommandLinePartition.EmptyNameCorner | base/command_line.cc:304-321 | "--=" is stored as the terminator |
| CommandLine.CommandLine.NoProgram | base/command_line.cc:143-146 | The fresh state, in agreement |
| CommandLine.CommandLine.FromArgv | base/command_line.cc:160-164 | The partitioned state, in agreement |
| CommandLine.CommandLine.InitFromArgv | base/command_line.cc:218-223 | Updates argv and divider but keeps old index entries, with the exact condition for agreement |
| CommandLine.CommandLine.SetProgram | base/command_line.cc:261-263 | Replaces only the first word, trimmed |
| CommandLine.CommandLine.AppendSwitchNative | base/command_line.cc:304-321 | Inserts the word at the divider and indexes it; agreement kept if and only if the name has no "=" |
| CommandLine.CommandLine.AppendArgNative | base/command_line.cc:365-367 | Adds one word at the end |
| CommandLine.CommandLine.AppendSwitchesAndArguments | base/command_line.cc:64-84 | The in-place loop refines the function on values and keeps agreement |
| CommandLine.CommandLine.AppendArguments | base/command_line.cc:369-374 | Sets the program if asked to and keeps it otherwise, then appends the other command line |
| CommandLine.CommandLine.HasSwitch | base/command_line.cc:265-267 | Found exactly if a word of the switch section has that key |
| CommandLine.CommandLine.LookupIsScan | base/command_line.cc:288-293 | Lookups agree with a scan of the section, also after a wrapper shifted it |
| CommandLine.CommandLine.GetSwitchValueNative | base/command_line.cc:288-293 | The value of the last matching word, or the empty string |
| CommandLine.CommandLine.CopySwitchesFrom | base/command_line.cc:332-339 | Copies the named switches the source has, the source being another command line or this one; agreement kept exactly when no copied name has "=", so always if the source is in agreement |
| CommandLine.CommandLine.PrependWrapper | base/command_line.cc:376-386 | Puts the wrapper's words in front and moves the divider |
| CommandLine.CommandLine.GetArgs | base/command_line.cc:341-350 | The words after the divider without the first "--" |
| FileTree.FollowBelow | base/file_util_posix.cc:818-839 | If a path leads to a directory, the path with further names leads to what those names are in the directory |
| FileTree.FollowResolves | base/file_util_posix.cc:210-217 | What stat finds, lstat finds: the same, or a link that leads there |
| FileTree.LeadsThereOrNowhere | base/file_util_posix.cc:227-242 | After removals a path leads where it did or nowhere, never elsewhere |
| FileTree.StillLeads | base/file_util_posix.cc:227-242 | It leads where it did if the links on the way and the node are still there |
| FileTree.NowhereStays | base/file_util_posix.cc:227-242 | A path that leads nowhere still does after removals |
| FileTree.NowhereBelow | base/file_util_posix.cc:227-242 | Below a path that leads nowhere there is nothing |
| FileTree.EmitKeeps | base/file_util_posix.cc:738-777 | Returning an entry keeps the traversal invariant |
| FileTree.OpenKeeps | base/file_util_posix.cc:746-772 | Opening the directory on top of the stack keeps it, whatever order its entries come in |
| FileTree.SkipKeeps | base/file_util_posix.cc:751-752 | Passing over a directory keeps it, and nothing due is missed if the directory cannot be listed |
| FileTree.DoneMeansAll | base/file_util_posix.cc:743-752 | When the traversal ends, exactly the wanted entries that are not below an unreadable directory have come out (none of the others even if a directory was lost), each once, entries of a directory before anything below its subdirectories |
| FileTree.OpenShrinks | base/file_util_posix.cc:742-773 | Opening a directory shrinks what lies ahead, so the loop ends |
| FileTree.DirectoriesParentsFirst | base/file_util_posix.cc:221-236 | The stacked directories list parents before children |
| FileSystem.PathShape | base/file_util_posix.cc:758-767 | The path of a node is stripped, and its components are those of the base and the node's names |
| FileSystem.PathsUnique | base/file_util_posix.cc:775-776 | Different nodes have different paths |
| FileSystem.FileSystem.Stat | base/file_util_posix.cc:209-215 | What a path leads to, links followed: a directory, something else, nothing (a dangling link, or a trailing separator on something else), or too many links |
| FileSystem.NodeAtPath | base/file_util_posix.cc:758-767 | A path names its node |
| FileSystem.PathsToUnique | base/file_util_posix.cc:775-776 | Different nodes are reached by different paths, through links too |
| FileSystem.FileSystem.ReadDirectory | base/file_util_posix.cc:815-854 | Lists each entry of the directory the path leads to, once, with its kind, "." and ".." among them; fails if it leads to no directory or to one that cannot be listed |
| FileSystem.FileSystem.Unlink | base/file_util_posix.cc:216-217 | Removes what the path names if it is not a directory, or is refused; fails on a directory and on a path that names nothing |
| FileSystem.FileSystem.Rmdir | base/file_util_posix.cc:218-219 | Removes an empty directory, or fails: on a path that names nothing, on a link, on a directory that is not empty, or by refusal |
| FileEnumerator.FileEnumerator.constructor | base/file_util_posix.cc:704-714 | Starts with the root on the stack and nothing returned |
| FileEnumerator.FileEnumerator.Collect | base/file_util_posix.cc:754-772 | Reading entries pushes exactly the subdirectories and keeps exactly the wanted entries, without "." and ".." |
| FileEnumerator.StandsTop | base/file_util_posix.cc:746-752 | The path of the directory to be opened next leads to it, or nowhere because a link on the way is gone |
| FileEnumerator.FileEnumerator.OpenNext | base/file_util_posix.cc:743-772 | One round of the loop opens the next directory or passes it over, and what lies ahead shrinks |
| FileEnumerator.FileEnumerator.Next | base/file_util_posix.cc:738-777 | Terminates, returns the path of the next entry and keeps the invariant; returns the empty path exactly when nothing is left; nothing is lost while the way to the top holds |
| FileEnumerator.ListAll | base/file_util_posix.cc:738-777 | Repeated Next ends; the returned paths are distinct and are exactly those of the wanted entries that are not below an unreadable directory, in order, also for a directory reached through links |
| DeleteTree.UnlinkFiles | base/file_util_posix.cc:221-236 | The first loop unlinks while the traversal goes on, never a directory, and stops at the first failure; otherwise all files that can be reached are gone, and the stack holds the remaining directories, parents first: all of them if they can be listed; unless the way to them is broken |
| DeleteTree.LastIsEmpty | base/file_util_posix.cc:238-242 | The directory on top of the stack is empty |
| DeleteTree.RmdirAt | base/file_util_posix.cc:238-242 | What rmdir meets under a stacked path: the directory, nothing because a link on the way is gone, or, under the first path, a link |
| DeleteTree.FirmStays | base/file_util_posix.cc:227-242 | If no link on the way lies at or below the directory, removals in it do not break the way |
| DeleteTree.RemoveLast | base/file_util_posix.cc:239-241 | One rmdir: the last directory of the stack goes or nothing does, and what kind of failure is possible |
| DeleteTree.RemoveDirectories | base/file_util_posix.cc:238-242 | The second loop calls rmdir only on empty directories if the first left nothing else or broke the way, and on nothing but directories unless the first path is a link; it stops at the first failure, and if there is none nothing is left of the target |
| DeleteTree.TargetGone | base/file_util_posix.cc:243-243 | If the target is gone and nothing outside changed, exactly the subtree is gone |
| DeleteTree.DeleteRecursively | base/file_util_posix.cc:221-243 | Both loops: success exactly if no removal fails; only nodes at or below the directory go; nothing new appears; if its directories can be listed, no rmdir meets a non-empty one, and nothing is left below it unless a removal is refused or the way breaks; started at a link to the directory they never succeed |
| DeleteTree.Delete | base/file_util_posix.cc:206-244 | By what stat says: nothing there is success without change, another stat error is failure without change. A file, a link to a file, or an empty directory without recursion is removed if and only if nothing is refused; without recursion a failed call changes nothing. A directory with recursion, its directories readable, is removed if and only if nothing is refused and no path breaks, and no path breaks if no link on the way lies at or below it; if nothing is refused and no path breaks, every file that can be reached is gone in any case. There is at most one failing removal, the last one. Success means that exactly the named subtree is gone, and that the named node is still there exactly if stat found nothing. On a link to a directory never success, and the directory is emptied under the same conditions. In every case whatever is left was there before, only nodes at or below the named node or the linked directory go, unlink is never called on a directory, and with readable directories recursion never calls rmdir on a non-empty one |
| DeleteTree.MissingIff | base/file_util_posix.cc:210-215 | What a path names and a successful Delete leaves: a link that leads nowhere, and anything but a directory or a link to one under a path with a trailing separator |
| DeleteTree.LinkCorners | base/file_util_posix.cc:210-215 | A dangling link, a link to itself and a link to a directory |
| DeleteTree.LinkBelowBreaks | base/file_util_posix.cc:227-236 | If a path leads through a link that lies below the directory it leads to, then once that link is removed nothing else in the directory can be reached by the path |
| DeleteTree.LinkOnTheWay | base/file_util_posix.cc:227-236 | The smallest such tree |
| Atomics.StepShape | base/atomicops_internals_arm_gcc.h:32-75 | Each step commits an operation by its sequential meaning or leaves word and history alone |
| Atomics.ActKeepsInv | base/atomicops_internals_arm_gcc.h:32-75 | Every step of every thread keeps the invariant |
| Atomics.RunKeepsInv | base/atomicops_internals_arm_gcc.h:32-75 | So does every schedule |
| Atomics.Linearizable | base/atomicops_internals_arm_gcc.h:32-75 | After any schedule the word and all results are those of a sequential execution with one entry per call that took effect |
| Atomics.CommitInsideCall | base/atomicops_internals_arm_gcc.h:32-75 | An entry is made by its own thread, between invocation and return, for the operation invoked |
| Atomics.OnlyCommitsWrite | base/atomicops_internals_arm_gcc.h:37-39 | The word changes only in a step that commits |
| Atomics.RetryMeansInterference | base/atomicops_internals_arm_gcc.h:36-73 | Each of the three loops goes round again only after a spurious failure or another operation's effect |
| Atomics.CasEntries | base/atomicops_internals_arm_gcc.h:32-44 | A CAS returns its expected value exactly when it wrote; otherwise it returned a value the word had |
| Atomics.EntryMeans | base/atomicops_internals_arm_gcc.h:32-75 | What each operation returned and left in the word: an exchange returns what was there and leaves its argument, a load changes nothing, an increment returns the 32-bit sum it leaves |
| Atomics.AloneCompletes | base/atomicops_internals_arm_gcc.h:32-75 | Wherever a thread is in its loop, four steps alone and without spurious failures complete its call with the sequential result |
| Atomics.Conservation | base/atomicops_internals_arm_gcc.h:46-54 | Initial value and values put in equal, as a multiset, values taken out and the final value |
| Atomics.RunConserves | base/atomicops_internals_arm_gcc.h:32-75 | Conservation over every schedule |
| Atomics.SumOfIncrements | base/atomicops_internals_arm_gcc.h:61-75 | With increments only, the word is the initial value plus their sum, modulo the word size |
| Atomics.RunSums | base/atomicops_internals_arm_gcc.h:61-75 | The same over every schedule |
| SequenceNumber.NumberAt | base/atomic_sequence_num.h:25-28 | The i-th call to take effect gets i modulo the word size |
| SequenceNumber.QuietHistory | base/atomic_sequence_num.h:25-28 | When all threads are idle, the history has exactly one entry per completed call |
| SequenceNumber.UniqueNumbers | base/atomic_sequence_num.h:25-37 | k concurrent calls get exactly 0 to k - 1, each once, if and only if k is at most 2^31; numbers are distinct if and only if k is at most 2^32 |
| RefCount.StepKeepsInv | base/atomic_ref_count.h:23-66 | A step of a thread that follows the rules keeps count and references equal |
| RefCount.ActKeepsInvariant | base/atomic_ref_count.h:23-66 | So does every action, handing references over included |
| RefCount.ActKeepsZero | base/atomic_ref_count.h:32-40 | Once zero has been reported no reference is left and no change follows, as long as the references do not make up a full turn of the word |
| RefCount.RunInvariants | base/atomic_ref_count.h:23-66 | The count is the references modulo the word size after every schedule, and the zero law holds after every schedule without a full turn |
| RefCount.CountIsReferences | base/atomic_ref_count.h:23-52 | After every schedule the count is the number of references held modulo the word size, equal to it exactly below 2^31; without a full turn zero has been reported exactly when none is left, once, by the last change |
| RefCount.HonestZerosIff | base/atomic_ref_count.h:32-40 | Every report of zero in a run finds no reference left, if and only if the references never make up a positive multiple of 2^32 |
| RefCount.OneMeansExclusive | base/atomic_ref_count.h:54-66 | A holder that sees one is the only holder at that step, if and only if there are fewer than 2^32 references |
| CancelableCallbackSpec.AfterWellFormed | base/cancelable_callback.h:60-115 | After every trace at most the newest weak-pointer flag is valid, and the stored closure is the one the trace installs |
| CancelableCallbackSpec.Between | base/memory/weak_ptr.cc:48-61 | Without a revocation the state stands still; after one, old flags stay invalid |
| CancelableCallbackSpec.RunsIffNotRevoked | base/cancelable_callback.h:60-115 | Running a non-null copy executes a closure exactly when nothing revoked it since it was taken, and then the most recently installed one |
| CancelableCallbackSpec.NullIffCancelled | base/cancelable_callback.h:82-84 | callback() is null exactly when cancelled |
| CancelableCallback.CancelableCallback.constructor | base/cancelable_callback.h:62-62 | Nothing installed |
| CancelableCallback.CancelableCallback.WithCallback | base/cancelable_callback.h:65-70 | The given closure is installed |
| CancelableCallback.CancelableCallback.InitializeForwarder | base/cancelable_callback.h:112-115 | Binds the forwarder to a new valid flag |
| CancelableCallback.CancelableCallback.Cancel | base/cancelable_callback.h:75-79 | Revokes every copy |
| CancelableCallback.CancelableCallback.Reset | base/cancelable_callback.h:88-98 | Revokes every copy and installs the closure under a new flag |
| CancelableCallback.CancelableCallback.Destroy | base/memory/weak_ptr.cc:44-46 | Destruction revokes every copy |
| CancelableCallback.CancelableCallback.IsCancelled | base/cancelable_callback.h:82-84 | True exactly when the trace leaves nothing installed |
| CancelableCallback.CancelableCallback.Callback | base/cancelable_callback.h:101-103 | Null exactly when nothing is installed |
| CancelableCallback.CancelableCallback.Run | base/bind_internal.h:872-882 | A copy runs exactly if it has not been revoked since it was taken |
| Bits.ShiftTwice | base/bits.h:23-30 | Two shifts are one shift by the sum |
| Bits.ShiftBelow | base/bits.h:23-30 | A value is below 2^(a+b) exactly when shifted by a it is below 2^b |
| Bits.Log2FloorLoop | base/bits.h:18-33 | For any starting exponent k and all n below 2^(2^(k+1)), the loop gives the floor of the logarithm |
| Bits.Log2Floor | base/bits.h:18-33 | The 32-bit case |
| Bits.Log2Ceiling | base/bits.h:36-43 | The least r with n at most 2^r; -1 for zero |
| Bits.FloorUnique | base/bits.h:17-17 | The floor is determined by its bounds |

## Left out

- System calls, temporary files, mmap, home directories, the asynchronous file proxy, AtExitManager, GlobalDescriptors,
  Environment, GUIDs, CPU detection and event recording: wrappers of the operating system or easy members.
- Template machinery of bind and callback; only the weak call that does nothing is modelled.
- Memory barriers and weak memory ordering, and the atomics of other processors: steps are sequentially consistent.
  Signed overflow, undefined in the source, is modelled as wrap-around.
- SequenceNumber.UniqueNumbers: Reset is not a step; it is only called by the constructor, so the word starts at 0.
- The loops of the shuffle, of Next and of Delete are split into helper methods along their inner loops; the injectivity
  check of base/file_descriptor_shuffle.cc:28-31 is a precondition.
- FilePath comparison that ignores case (HFS and Windows tables), UTF conversions and display names.
- ArgvQuoting.RoundTripIff: the program name, which CommandLineToArgvW parses by other rules, Windows lower-casing of
  switches, and the undocumented treatment of two adjacent quotes are not modelled.
- CommandLine.CommandLine.AppendArguments: on itself only with the program alone, since otherwise the loop never ends.
- The Windows forms of the CommandLine object; the class is the POSIX one.
- FileEnumerator: patterns, following links, INCLUDE_DOT_DOT and non-recursive mode; the tree changes only through the
  caller's own removals.
- Link texts and base paths with "..": a link is given by the node its text names, so that a text such as "d/sub/.."
  does not depend on d/sub.
- FileSystem.FileSystem.ReadDirectory: an lstat that fails, whose entry the source then takes for a file.
- DeleteTree.Delete: stat errors other than a missing path and too many links. Which nodes are left when the deletion
  removes a link it goes through depends on the listing order and is only bounded.
- CancelableCallback: running a copy from inside a callback, and Reset with the object's own forwarder; the variants
  with arguments are the same code.
