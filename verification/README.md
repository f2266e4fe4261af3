# Google Test: a verified model

A Dafny model of the algorithms and protocols inside Google Test, with proofs
of what they promise. `dafny verify dfyconfig.toml` checks the whole project.

## What is modelled

- **The diff engine.** `EditScript` fills the edit-distance tables and walks
  back through them, with lines interned as ids; `ScriptGeometry` says where a
  script stands in both files; `DiffHunk` is the object that collects and
  prints one hunk; `UnifiedDiff` decides which edits share a hunk; `Patch`
  applies hunks in both directions; `DiffText` reads the printed text back and
  patches with nothing but that text. The result is end to end: for every two
  files and every context, patching works if and only if the context is at
  least 1 or the files are equal. `EditOptimality` says exactly when scripts
  are cheapest ones.
- **Wildcards and test filters.** `Glob` proves the iterative matcher that
  remembers only the last `*` against the recursive meaning of patterns;
  `Splitting` and `TestFilter` prove the indexed filters against "some piece
  matches".
- **Simple regular expressions.** `RegexSyntax` gives the grammar and proves
  the validator against it; `RegexMatch` proves the backtracking matcher
  against a denoted language, and says exactly when a full match means the
  whole string; `RegexClasses` says what every atom, repetition, sequence and
  anchor stands for, character by character.
- **Concurrency.** `MutexProtocol` is the lazily initialised mutex for any
  number of threads, one atomic action at a time, with nested locking. `DeathTestProtocol` is a
  fork-style death test as two processes and a pipe; `DeathTest` has the
  methods of the parent, each proved to take steps of that protocol.
- **Printers and encoders.** `Utf8`, `WideString`, `LiteralPrinter`,
  `WideInteger` (with `Decimal` and `Hexadecimal`) and `XmlWriter`, each with a
  reader or decoder and a proof that nothing is lost, or of exactly what is.
- **The scheduler.** `TestRegistry` keeps the registered suites, `Shuffle`
  permutes a range, `TestSelection` filters and shards, `TestRun` and
  `TestProgram` say which events an iteration and a whole run have and exactly
  which tests run. `TestOutcome` reads the verdicts on tests, suites and runs
  off the trace alone, from which calls of user code occur and what they
  report; `TestOrder` says in which order they occur. `RunLoop` is the run
  loop, proved to produce exactly those events.

Methods follow the loops of the code and are proved against specification
functions; lemmas prove what the code promises about those functions. `Prelude`
holds the shared types.

## How the model reads the code

- Edit costs are the code's 1 and 1.00001 times 100000, as integers; the
  rounding of `double` is abstracted.
- `size_t` and `int` counters are unbounded, except where wrap-around or a cap
  is part of the algorithm: the 64-bit words of `WideInteger`, the 32-bit
  random state, and the repetition cap of the regex matcher.
- Bit masks and shifts are written as division and remainder by powers of two;
  an `|` that joins disjoint bits is an addition.
- A C string is a string without NUL; streaming a `const char*` stops at the
  first NUL, which `DiffHunk.CText` makes explicit for the lines of a diff.
- `std::partition` may reorder the wildcard patterns of a filter; the model
  keeps their order, which no result depends on.
- What user code reports (environments, suites, tests) is an arbitrary function
  from iteration and position to a list of part results. System calls take
  their outcome as a parameter.
- The run loop's events include moments that listeners do not see: that a suite
  has been set up and is torn down; that a test is created, set up, run, torn
  down and deleted; and that its fixture class is found to be the wrong one.
  There is one event for every call of user code.
- Which fixture class a test is defined with is a number given by user code.
- fail_fast is about tests and suites: a failure that an environment's set-up
  reports stops the tests only if it is fatal
  (`TestProgram.FailingEnvironmentStopsNothing`).
- In a death test any signal may kill the child at any point.

## Where the code and its documentation differ

- `CalculateOptimalEdits` is documented to return the optimal edits. Ties in
  which adding and removing cost the same, and less than replacing, fall into
  the replacement branch. `EditOptimality.NotAlwaysOptimal` gives an input;
  `EditOptimality.OptimalIffNoTie` gives the exact condition for all prefixes,
  `EditOptimality.OptimalIffTightWalk` for one pair of inputs.
- `Mutex::AssertHeld` is documented to do nothing for a thread that holds the
  mutex. After Lock, Lock, Unlock the thread still holds it and is aborted
  (`MutexProtocol.AssertHeldMissesNestedLock`, `MutexProtocol.NestedLockExample`).
- `CodePointToUtf8` is documented to give the error text above U+10FFFF; it
  does so above U+1FFFFF (`Utf8.InvalidTextOnlyAbove21Bits`, with an input in
  `Utf8.NoErrorTextExample`).
- `RE::FullMatch` on a pattern ending in `\$` accepts strings with more
  characters behind the match (`RegexMatch.FullMatchIsWholeMatch`).
- `PrintCharsAsStringTo` is meant to print a literal for the characters; a NUL
  directly before an octal digit is read differently
  (`LiteralPrinter.ReadsBackIffUnambiguous`, with an input in
  `LiteralPrinter.NulDigitExample`).

## Model

| member | source | states |
|---|---|---|
| EditScript.MoveFits | gtest_x64-linux/src/gtest.cc:1310-1342 | a move recorded in a cell never leaves the table, is a match only for equal elements, and accounts for the cost of the cell it leads to |
| EditScript.FillRow | gtest_x64-linux/src/gtest.cc:1308-1333 | fills one row of both tables in place from the row above; every other row is unchanged |
| EditScript.FillTable | gtest_x64-linux/src/gtest.cc:1292-1333 | both tables hold, in every cell, the cost and the last move of the recurrence |
| EditScript.CalculateOptimalEdits | gtest_x64-linux/src/gtest.cc:1290-1345 | the walk back from the far corner stays in the table, ends at the origin, and yields the moves of the recurrence in forward order |
| EditScript.PathTransforms | gtest_x64-linux/src/gtest.cc:1290-1345 | for every pair of prefixes the script consumes exactly the left one, produces exactly the right one, matches only equal elements, and its costs add up to the cell of the table |
| EditScript.CostUpperBound | gtest_x64-linux/src/gtest.cc:1290-1345 | the cost is at most one addition per missing element plus one replacement per paired one |
| EditScript.CostZeroIffEqual | gtest_x64-linux/src/gtest.cc:1290-1345 | the cost of two prefixes is 0 if and only if they are equal |
| EditScript.EqualInputsOnlyMatch | gtest_x64-linux/src/gtest.cc:1310-1315 | equal inputs get a script of matches only |
| EditScript.PathDependsOnEqualityOnly | gtest_x64-linux/src/gtest.cc:1366-1380 | the script depends only on which left elements equal which right ones, so ids may stand for lines |
| EditScript.CheaperMeansFewer | gtest_x64-linux/src/gtest.cc:1310-1331 | of two scripts with fewer than 100000 edits the cheaper one is the one with fewer edits and, of as many, the one with fewer replacements |
| EditScript.FewerNoLongerCheaper | gtest_x64-linux/src/gtest.cc:1325-1329 | the bound is needed: 100000 replacements cost as much as 100001 additions |
| EditScript.InternalStrings.constructor | gtest_x64-linux/src/gtest.cc:1350-1362 | an empty table |
| EditScript.InternalStrings.GetId | gtest_x64-linux/src/gtest.cc:1352-1358 | hands out one id per distinct string, never the same for two, and keeps every id given before |
| EditScript.InternAll | gtest_x64-linux/src/gtest.cc:1369-1378 | the ids of a list of lines, with the ids given before unchanged |
| EditScript.CalculateOptimalEditsOfLines | gtest_x64-linux/src/gtest.cc:1366-1380 | interning loses nothing: the script of the ids is the script of the lines |
| EditOptimality.OptimumIsLowerBound | gtest_x64-linux/include/gtest/internal/gtest-internal.h:168-182 | no valid script of any kind is cheaper than the optimum |
| EditOptimality.OptimumIsAttained | gtest_x64-linux/include/gtest/internal/gtest-internal.h:168-182 | some valid script has the optimal cost |
| EditOptimality.BestNotBelowOptimum | gtest_x64-linux/src/gtest.cc:1290-1345 | the table never promises less than the optimum |
| EditOptimality.NoMisstepIsOptimal | gtest_x64-linux/src/gtest.cc:1317-1331 | without a cell whose tie-break prefers a replacement to an addition or removal that is no dearer to reach, the script is optimal |
| EditOptimality.MisstepIsNotOptimal | gtest_x64-linux/src/gtest.cc:1317-1331 | at every such cell the table is strictly above the optimum |
| EditOptimality.OptimalIffNoTie | gtest_x64-linux/src/gtest.cc:1317-1331 | every pair of prefixes gets its cheapest script if and only if no two prefixes ending in different elements are tied: adding, removing and replacing without a strict winner although replacing is no better - a condition on the inputs that does not mention the algorithm |
| EditOptimality.TieIsDear | gtest_x64-linux/src/gtest.cc:1317-1331 | a tie makes its own cell, or one next to it, dearer than the optimum |
| EditOptimality.OptimalIffTightWalk | gtest_x64-linux/src/gtest.cc:1335-1344 | one pair of inputs gets its cheapest script if and only if every move of the walk back is the last move of a cheapest script |
| EditOptimality.HarmlessTie | gtest_x64-linux/src/gtest.cc:1317-1331 | 1 2 against 2 1 2 gets its cheapest script although two of its prefixes are tied, so for one pair of inputs the absence of ties is sufficient and not necessary |
| EditOptimality.NotAlwaysOptimal | gtest_x64-linux/src/gtest.cc:1317-1331 | 1 2 1 against 2 1 2 gets three replacements although a removal and an addition suffice |
| ScriptGeometry.TransformsAligns | gtest_x64-linux/src/gtest.cc:1465-1526 | a valid script, walked with one index per side, ends at the ends of both inputs and never leaves them |
| ScriptGeometry.QuietStretch | gtest_x64-linux/src/gtest.cc:1480-1485 | over a stretch of matches both indices advance together over equal lines, so the index of the first context line does not underflow |
| ScriptGeometry.QuietIffEqual | gtest_x64-linux/src/gtest.cc:1474-1482 | the script has no edit if and only if the inputs are equal |
| DiffHunk.AppendRemovals | gtest_x64-linux/src/gtest.cc:1428-1431 | appending removed lines extends the left text by them and leaves the right text alone |
| DiffHunk.AppendAdditions | gtest_x64-linux/src/gtest.cc:1428-1431 | appending added lines extends the right text by them and leaves the left text alone |
| DiffHunk.Hunk.constructor | gtest_x64-linux/src/gtest.cc:1390-1395 | an empty hunk at the given positions |
| DiffHunk.Hunk.PushLine | gtest_x64-linux/src/gtest.cc:1397-1413 | adds the line to the text of the files it belongs to and to one counter, and to nothing else; keeps removals before additions |
| DiffHunk.Hunk.FlushEdits | gtest_x64-linux/src/gtest.cc:1428-1431 | moves the pending removals, then the pending additions, without changing the text of either file |
| DiffHunk.Hunk.PrintTo | gtest_x64-linux/src/gtest.cc:1415-1423 | prints header and lines in order; the counts printed are those of the lines, and no added line stands directly before a removed one |
| DiffHunk.Hunk.PrintHeader | gtest_x64-linux/src/gtest.cc:1433-1449 | prints the ranges of the sides that have edits |
| DiffHunk.HeaderText | gtest_x64-linux/src/gtest.cc:1433-1449 | the header character by character, for hunks that change one file or both |
| DiffHunk.LineText | gtest_x64-linux/src/gtest.cc:1415-1423 | a line is printed behind its tag, up to its first NUL, and ends with a newline |
| DiffHunk.TagsMean | gtest_x64-linux/src/gtest.cc:1397-1413 | a line tagged - belongs to the left file, one tagged + to the right, one tagged with a space to both |
| UnifiedDiff.SkipMatches | gtest_x64-linux/src/gtest.cc:1493-1494 | the next edit at or after a position, with nothing but matches before it |
| UnifiedDiff.PushEdit | gtest_x64-linux/src/gtest.cc:1502-1515 | pushes the lines of one edit, so the hunk holds one edit more of the script |
| UnifiedDiff.StartHunk | gtest_x64-linux/src/gtest.cc:1480-1485 | a hunk opened with the context lines before the first edit holds exactly that stretch of the script |
| UnifiedDiff.FillHunk | gtest_x64-linux/src/gtest.cc:1487-1516 | consumes edits until enough matches follow the last one; the hunk then shows one cluster of edits with its context on both sides |
| UnifiedDiff.CreateUnifiedDiff | gtest_x64-linux/src/gtest.cc:1465-1526 | with context of at least 1 there is one printed hunk per cluster of edits, each showing exactly its stretch of both files, and nothing but matches is left out; with no context nothing is printed |
| Patch.ApplyGivesRight | gtest_x64-linux/src/gtest.cc:1465-1526 | the hunks applied to the left file give exactly the right one, and applied backwards to the right file exactly the left one |
| Patch.OneHunk | gtest_x64-linux/src/gtest.cc:1415-1449 | what applying a hunk is: the old lines must stand where the hunk says, and the new ones take their place, in either direction |
| Patch.HunkEnds | gtest_x64-linux/src/gtest.cc:1433-1449 | header starts and counts are the real positions and lengths of the slices shown |
| Patch.HunksAreDisjoint | gtest_x64-linux/src/gtest.cc:1472-1524 | successive hunks cover disjoint increasing ranges of both files; the lines skipped between them are the same in both |
| Patch.NoHunksIffEqual | gtest_x64-linux/src/gtest.cc:1472-1521 | there are no hunks if and only if the files are equal |
| Patch.SpansIncrease | gtest_x64-linux/src/gtest.cc:1490-1500 | two clusters are separated by at least twice the context |
| Patch.ShareHunkIffClose | gtest_x64-linux/src/gtest.cc:1490-1500 | two consecutive edits share a hunk if and only if fewer than twice the context matches separate them |
| Patch.ContextIsExact | gtest_x64-linux/src/gtest.cc:1480-1516 | in both files a hunk starts exactly the context before its first edit, or at the beginning if there is less, and ends exactly the context after its last edit, or at the end |
| DiffText.HeaderReadsBack | gtest_x64-linux/src/gtest.cc:1433-1449 | reading a printed header gives, for each side with edits, where it starts and how long it is |
| DiffText.TextReadsBack | gtest_x64-linux/src/gtest.cc:1415-1449 | reading the printed text gives the hunks back, header by header and line by line |
| DiffText.StartIsKnown | gtest_x64-linux/src/gtest.cc:1433-1449 | a hunk whose range for one file is not printed is still placed by the other range and the lines copied before it, in both directions |
| DiffText.TextGivesRight | gtest_x64-linux/src/gtest.cc:1460-1526 | the printed text alone turns the left file into the right one, and backwards the right file into the left one |
| DiffText.OneTextHunk | gtest_x64-linux/src/gtest.cc:1415-1449 | what patching with a printed hunk is: the lines must stand where its ranges say and be as many as they say |
| DiffText.DiffFiles | gtest_x64-linux/src/gtest.cc:1460-1526 | for all files: patching forwards and backwards, with the hunks and with nothing but the printed text, succeeds if and only if the context is at least 1 or the files are equal |
| DiffText.DiffExample | gtest_x64-linux/src/gtest.cc:1465-1526 | the whole text for two files of two lines that differ in the second |
| Glob.StarMeansSomeSuffix | gtest_x64-linux/src/gtest.cc:687-693 | `*` followed by a rest matches if and only if the rest matches some suffix |
| Glob.StarFreePrefix | gtest_x64-linux/src/gtest.cc:702-726 | a stretch without `*` consumes exactly as many characters as it has |
| Glob.LaterStarDominates | gtest_x64-linux/src/gtest.cc:710-733 | once a later `*` is reached, going back to an earlier one cannot find a match that the later one misses |
| Glob.PatternMatchesString | gtest_x64-linux/src/gtest.cc:694-739 | the loop ends, and returns true if and only if the whole name matches under the recursive meaning of `?` and `*` |
| Glob.MatchesMeans | gtest_x64-linux/src/gtest.cc:687-693 | a pattern matches exactly the names that can be cut into one piece per character of it: any piece for `*`, one character for `?`, and itself for every other character |
| Splitting.SplitIsUnique | gtest_x64-linux/src/gtest.cc:1233-1248 | a string has only one split |
| Splitting.SplitString | gtest_x64-linux/src/gtest.cc:1233-1248 | at least one piece, none containing the delimiter, and joining them gives the string back |
| TestFilter.ExactMatchesItself | gtest_x64-linux/src/gtest.cc:743-746 | a pattern without wildcards matches its own text only |
| TestFilter.UnitTestFilter.MatchesName | gtest_x64-linux/src/gtest.cc:771-780 | accepts a name that is in the exact set or matches one of the wildcard patterns |
| TestFilter.MakeFilter | gtest_x64-linux/src/gtest.cc:753-767 | for every name: the partitioned filter accepts it if and only if some piece of the string split at `:` matches it |
| TestFilter.PositiveAndNegativeUnitTestFilter.MatchesName | gtest_x64-linux/src/gtest.cc:828-833 | accepted by the positive filter and not by the negative one |
| TestFilter.PositiveAndNegativeUnitTestFilter.MatchesTest | gtest_x64-linux/src/gtest.cc:820-826 | the same for the name suite.test |
| TestFilter.MakePositiveAndNegativeFilter | gtest_x64-linux/src/gtest.cc:793-818 | for every filter string: the part before the first `-` (or `*` if empty) selects, everything after it deselects |
| TestFilter.PositiveOnly | gtest_x64-linux/src/gtest.cc:811-817 | a filter without `-` selects what it matches |
| TestFilter.PositiveAndNegative | gtest_x64-linux/src/gtest.cc:800-810 | p-n selects what p matches and n does not |
| TestFilter.NegativeOnly | gtest_x64-linux/src/gtest.cc:801-802 | -n selects everything that n does not match |
| TestFilter.DeathTestSuiteNames | gtest_x64-linux/src/gtest.cc:171-171 | the death test filter accepts exactly names ending in DeathTest or containing DeathTest/ |
| TestFilter.DisabledNames | gtest_x64-linux/src/gtest.cc:166-166 | the disabling filter accepts exactly names starting with DISABLED_ or containing /DISABLED_ |
| RegexSyntax.ParseIffUnparse | gtest_x64-linux/src/gtest-port.cc:783-842 | a pattern parses to at most one regex, the one it is written from |
| RegexSyntax.ValidIffParses | gtest_x64-linux/src/gtest-port.cc:791-842 | the validator's scan accepts exactly the strings that are written from some regex: optional `^`, atoms with at most one repetition each, optional `$` |
| RegexSyntax.ValidateRegex | gtest_x64-linux/src/gtest-port.cc:791-842 | returns true if and only if the pattern is not null and is written from a well-formed regex |
| RegexMatch.HeadOfPieces | gtest_x64-linux/src/gtest-port.cc:851-870 | matching at the head means some allowed run of the first atom followed by a match of the rest |
| RegexMatch.HeadOfSingle | gtest_x64-linux/src/gtest-port.cc:892-898 | an atom without repetition takes exactly one character |
| RegexMatch.MatchRepetitionAndRegexAtHead | gtest_x64-linux/src/gtest-port.cc:851-870 | returns true if and only if some allowed number of matching characters is followed by a match of the rest of the pattern |
| RegexMatch.MatchRegexAtHead | gtest_x64-linux/src/gtest-port.cc:875-899 | returns true if and only if some prefix (all of the string after `$`) is in the denoted language |
| RegexMatch.MatchRegexAnywhere | gtest_x64-linux/src/gtest-port.cc:909-919 | returns true if and only if some substring, anchored as written, is in the language; false for null |
| RegexMatch.FullPatternParses | gtest_x64-linux/src/gtest-port.cc:952-970 | the full-match pattern anchors both ends, except the end after an escaped dollar |
| RegexMatch.RE.Init | gtest_x64-linux/src/gtest-port.cc:940-971 | a valid object keeps the pattern and the pattern anchored at both ends; an invalid one has no full pattern |
| RegexMatch.RE.FullMatch | gtest_x64-linux/src/gtest-port.cc:929-931 | decides whole-string matching, or after an escaped dollar only prefix matching |
| RegexMatch.RE.PartialMatch | gtest_x64-linux/src/gtest-port.cc:935-937 | returns true if and only if the pattern is valid and some substring matches |
| RegexMatch.LanguageIsNotEmpty | gtest_x64-linux/src/gtest-port.cc:750-780 | every well-formed sequence of atoms matches some string |
| RegexMatch.FullMatchIsWholeMatch | gtest_x64-linux/src/gtest-port.cc:952-970 | FullMatch decides whole-string matching for every string if and only if the last atom is not an escaped dollar |
| RegexMatch.EscapedDollarExample | gtest_x64-linux/src/gtest-port.cc:952-970 | `\$` is a full match for `$x` |
| RegexClasses.OneAtom | gtest_x64-linux/src/gtest-port.cc:892-898 | a pattern of one atom is a full match for a string of one character if and only if the atom matches it |
| RegexClasses.Repetition | gtest_x64-linux/src/gtest-port.cc:851-870 | on any string: ? accepts at most one, * any number and + at least one of the characters its atom accepts |
| RegexClasses.Digits | gtest_x64-linux/src/gtest-port.cc:752-755 | \d accepts exactly 0123456789 and \D exactly the rest |
| RegexClasses.WordCharacters | gtest_x64-linux/src/gtest-port.cc:738-741 | \w accepts exactly the digits, both cases of the letters and the underscore, by their codes, and \W exactly the rest |
| RegexClasses.WhiteSpace | gtest_x64-linux/src/gtest-port.cc:737-737 | \s accepts exactly the codes 9 to 13 and 32, and \S exactly the rest |
| RegexClasses.ControlCharacters | gtest_x64-linux/src/gtest-port.cc:756-771 | \t, \n, \v, \f and \r accept exactly one code each |
| RegexClasses.Punctuation | gtest_x64-linux/src/gtest-port.cc:733-735 | punctuation is every graphic ASCII character that is neither letter nor digit |
| RegexClasses.Escapes | gtest_x64-linux/src/gtest-port.cc:744-746 | exactly punctuation and the letters of the classes may be escaped |
| RegexClasses.EscapedPunctuation | gtest_x64-linux/src/gtest-port.cc:776-776 | escaped punctuation accepts itself only |
| RegexClasses.PlainCharacters | gtest_x64-linux/src/gtest-port.cc:779-779 | a dot accepts every character but a newline, any other plain character itself only |
| RegexClasses.SpecialCharacters | gtest_x64-linux/src/gtest-port.cc:791-842 | special characters are no patterns of their own, and an anchor alone accepts the empty string only |
| RegexClasses.Sequence | gtest_x64-linux/src/gtest-port.cc:875-899 | a sequence of pieces stands for a string of its first part followed by a string of its second, however it is divided |
| RegexClasses.Searching | gtest_x64-linux/src/gtest-port.cc:909-919 | a partial match is some stretch of the string, with nothing before it under `^` and nothing after it under `$` |
| MutexProtocol.ActKeepsShared | gtest_x64-linux/src/gtest-port.cc:376-418 | no action of any thread breaks the agreement of phase, critical section and creation count, or fails a check |
| MutexProtocol.ActKeepsInitialisers | gtest_x64-linux/src/gtest-port.cc:376-418 | in phase 1 exactly one thread is initialising, otherwise none, and nobody is past initialisation before phase 2 |
| MutexProtocol.ActKeepsHolder | gtest_x64-linux/src/gtest-port.cc:317-332 | every thread is inside as often as the critical section counts its entries, and is the owner from writing owner in Lock until clearing it in Unlock |
| MutexProtocol.RunKeepsInvariant | gtest_x64-linux/src/gtest-port.cc:317-418 | the invariant holds in every state of every interleaving of any number of threads |
| MutexProtocol.PhaseOnlyAdvances | gtest_x64-linux/src/gtest-port.cc:376-418 | the phase of a static mutex moves only 0, 1, 2, one step at a time |
| MutexProtocol.InitialisedOnceBeforeUse | gtest_x64-linux/src/gtest-port.cc:376-418 | the critical section is created at most once and is ready before any thread uses it; the check after initialisation never fails and the default case is never taken |
| MutexProtocol.MutualExclusion | gtest_x64-linux/src/gtest-port.cc:317-332 | at most one thread is between entering and leaving |
| MutexProtocol.OperationEnds | gtest_x64-linux/src/gtest-port.cc:317-338 | over any interleaving: when Lock returns the thread owns the mutex and is inside once more than when it called; when Unlock returns nobody is the owner and the thread has left once; when AssertHeld returns the thread owns the mutex |
| MutexProtocol.AssertHeldIsExact | gtest_x64-linux/src/gtest-port.cc:334-338 | AssertHeld passes if and only if the calling thread finished Lock and has not started Unlock since, nested locking included |
| MutexProtocol.AssertHeldMissesNestedLock | gtest_x64-linux/src/gtest-port.cc:317-338 | AssertHeld tells whether the thread holds the mutex, as documented, unless the thread holds it and has unlocked since it last locked; then it aborts a holder |
| MutexProtocol.NestedLockExample | gtest_x64-linux/src/gtest-port.cc:317-338 | Lock, Lock, Unlock, AssertHeld aborts a thread that still holds the mutex |
| MutexProtocol.FirstLockExample | gtest_x64-linux/src/gtest-port.cc:376-418 | a run in which the first Lock of a static mutex creates and initialises the critical section and owns the mutex |
| MutexProtocol.AssertHeldInPlainUse | gtest_x64-linux/src/gtest-port.cc:334-338 | in every run without nested locking AssertHeld passes if and only if the thread holds the mutex |
| MutexProtocol.NoDeadlock | gtest_x64-linux/src/gtest-port.cc:317-418 | while an operation is under way some thread can take a step that changes the state, unless the holder is idle and keeps the mutex |
| DeathTestProtocol.ActKeepsPipe | gtest_x64-linux/src/gtest-death-test.cc:496-514 | at most one status byte is ever written, and it is in the pipe from its writing to its reading |
| DeathTestProtocol.ActKeepsOutcome | gtest_x64-linux/src/gtest-death-test.cc:464-502 | the parent's conclusion fits what the child wrote |
| DeathTestProtocol.RunKeepsInvariant | gtest_x64-linux/src/gtest-death-test.cc:464-529 | the invariant holds in every state of every run of parent and child |
| DeathTestProtocol.OutcomeIsExact | gtest_x64-linux/src/gtest-death-test.cc:464-502 | once the parent has read: DIED if and only if the child ended without writing a byte, otherwise the reason given to Abort |
| DeathTestProtocol.OutcomeTellsWhatHappened | gtest_x64-linux/src/gtest-death-test.cc:464-529 | against the events of the run: LIVED, THREW or RETURNED if and only if the child aborted for that reason and its write succeeded, DIED if and only if no write succeeded |
| DeathTestProtocol.ChildActs | gtest_x64-linux/src/gtest-death-test.cc:510-529 | the bytes L, T and R for the three reasons, and exit status 1 after one is written |
| DeathTestProtocol.ParentNeverBlocks | gtest_x64-linux/src/gtest-death-test.cc:1088-1098 | once the child has ended neither read nor waitpid blocks the parent |
| DeathTestProtocol.NoUnknownByte | gtest_x64-linux/src/gtest-death-test.cc:478-497 | the parent never meets an unexpected status byte; it gives up only on a failed system call |
| DeathTestProtocol.VerdictIsExact | gtest_x64-linux/src/gtest-death-test.cc:570-622 | for any predicate on exit statuses: the test passes if and only if the child died without a status byte, the predicate accepts the status it really ended with, and its stderr matched |
| DeathTestProtocol.KilledChildPasses | gtest_x64-linux/src/gtest-death-test.cc:570-622 | a run in which a child killed by a signal passes |
| DeathTest.Syscall | gtest_x64-linux/src/gtest-death-test.cc:470-476 | a system call is made again while it is interrupted |
| DeathTest.DeathTestImpl.constructor | gtest_x64-linux/src/gtest-death-test.cc:402-409 | not spawned, in progress, no descriptors |
| DeathTest.DeathTestImpl.AssumeRole | gtest_x64-linux/src/gtest-death-test.cc:1113-1146 | the parent's branch takes the protocol steps pipe, fork and close, or stops at the first failure with the object unchanged |
| DeathTest.DeathTestImpl.ReadAndInterpretStatusByte | gtest_x64-linux/src/gtest-death-test.cc:464-502 | takes the protocol steps read and close; fails only for a failed system call |
| DeathTest.DeathTestImpl.Wait | gtest_x64-linux/src/gtest-death-test.cc:1088-1098 | takes the steps read, close and waitpid, and returns the status the child ended with |
| DeathTest.DeathTestImpl.Abort | gtest_x64-linux/src/gtest-death-test.cc:510-529 | the child writes the byte that names the reason and exits with status 1, or aborts without a byte |
| DeathTest.DeathTestImpl.Passed | gtest_x64-linux/src/gtest-death-test.cc:570-622 | false if not spawned; otherwise true if and only if the outcome is DIED, the status is accepted and stderr matched |
| Utf8.EncodeReadsBack | gtest_x64-linux/src/gtest.cc:1971-1999 | the lead byte gives the length of an encoding and the payload bits give the code point |
| Utf8.EncodeAllInjective | gtest_x64-linux/src/gtest.cc:1971-1999 | no two sequences of code points have the same encoding |
| Utf8.HeadIsEncoding | gtest_x64-linux/src/gtest-printers.cc:485-508 | what the validator accepts at the head is the encoding of a Unicode scalar value |
| Utf8.EncodingPasses | gtest_x64-linux/src/gtest-printers.cc:485-508 | the encoding of a code point is accepted, with its length, if and only if it is a scalar value |
| Utf8.IsValidUTF8 | gtest_x64-linux/src/gtest-printers.cc:481-512 | returns true if and only if the bytes are a concatenation of encodings of scalar values |
| Utf8.ChopLowBits | gtest_x64-linux/src/gtest.cc:1959-1963 | the two parts put back together are the bit pattern, and the low part is below the n-th power of 2 |
| Utf8.CodePointToUtf8 | gtest_x64-linux/src/gtest.cc:1971-1999 | the encoding for U+1 to U+1FFFFF, nothing for U+0, and the error text above |
| Utf8.TextIsUtf8IffScalar | gtest_x64-linux/src/gtest.cc:1965-1999 | the bytes are valid UTF-8 if and only if the code point is a scalar value |
| Utf8.InvalidTextOnlyAbove21Bits | gtest_x64-linux/src/gtest.cc:1965-1975 | the error text is given if and only if the code point exceeds U+1FFFFF, not U+10FFFF as the comment says |
| Utf8.NoErrorTextExample | gtest_x64-linux/src/gtest.cc:1965-1995 | U+110000 becomes the bytes F4 90 80 80, which are not valid UTF-8, and not the error text |
| Utf8.EncodingInBits | gtest_x64-linux/src/gtest.cc:1977-1998 | one byte below U+80, two below U+800, three below U+10000, otherwise four, with their markers and the bits each byte carries |
| Utf8.WellFormedTable | gtest_x64-linux/src/gtest-printers.cc:485-508 | what is accepted at the head, byte range by byte range as in table 3-7 of the Unicode standard |
| Utf8.ErrorText | gtest_x64-linux/src/gtest.cc:1971-1975 | the error text character by character |
| WideString.WideStringToUtf8 | gtest_x64-linux/src/gtest.cc:2038-2058 | for every limit and wchar_t width: the text of the code points up to the first NUL |
| WideString.CodePointsReadBack | gtest_x64-linux/src/gtest.cc:2006-2057 | the 16-bit reading loses nothing: writing its code points as UTF-16 gives the units back, ill-formed ones included |
| WideString.Encode16ReadsBack | gtest_x64-linux/src/gtest.cc:2006-2057 | reading UTF-16 gives the characters it was written from |
| WideString.WellFormedBecomesUtf8 | gtest_x64-linux/src/gtest.cc:2021-2058 | well-formed UTF-16 becomes the UTF-8 of the same characters |
| WideString.OutputValidIffInputWellFormed | gtest_x64-linux/src/gtest.cc:2021-2058 | the output is valid UTF-8 if and only if the input was well-formed UTF-16 |
| WideString.SurrogatesInNumbers | gtest_x64-linux/src/gtest.cc:2006-2024 | a pair is D800 to DBFF followed by DC00 to DFFF, if wchar_t has 16 bits, and stands for 10000 and the ten bits of each |
| WideString.Encode16InNumbers | gtest_x64-linux/src/gtest.cc:2006-2024 | UTF-16 by its code units, which the reading is compared with |
| WideString.LimitMeans | gtest_x64-linux/src/gtest.cc:2038-2042 | -1 stands for the whole string, another limit for at most that many units |
| LiteralPrinter.PrintCharsAsStringTo | gtest_x64-linux/src/gtest-printers.cc:340-361 | prints the literal, broken where a hexadecimal escape would swallow the next character; reports whether any character was printed in hexadecimal |
| LiteralPrinter.LexCharReadsBack | gtest_x64-linux/src/gtest-printers.cc:149-209 | every character but NUL is read back as itself, provided no hexadecimal digit follows a hexadecimal escape |
| LiteralPrinter.AfterHexEscape | gtest_x64-linux/src/gtest-printers.cc:344-352 | the break makes sure that no hexadecimal digit follows a hexadecimal escape |
| LiteralPrinter.BreakIsNeeded | gtest_x64-linux/src/gtest-printers.cc:344-352 | without the break, a hexadecimal escape followed by a hexadecimal digit is read as another code |
| LiteralPrinter.BreakIsSkipped | gtest_x64-linux/src/gtest-printers.cc:346-352 | adjacent literals are read as one |
| LiteralPrinter.NulReadsBack | gtest_x64-linux/src/gtest-printers.cc:152-154 | a NUL is read together with up to two octal digits after it |
| LiteralPrinter.PrintedReadsBack | gtest_x64-linux/src/gtest-printers.cc:340-361 | reading the output gives the characters, with every NUL and the octal digits after it read as one escape |
| LiteralPrinter.ReadsBackIffUnambiguous | gtest_x64-linux/src/gtest-printers.cc:340-361 | the literal means the original characters if and only if no NUL stands directly before an octal digit |
| LiteralPrinter.NulDigitExample | gtest_x64-linux/src/gtest-printers.cc:152-154 | a NUL followed by the digit 1 is printed as \01 and read as the one character with code 1 |
| LiteralPrinter.PrintedAs | gtest_x64-linux/src/gtest-printers.cc:143-208 | what every character is printed as: itself from space to tilde save the quote and the backslash, the named escapes, otherwise its code in hexadecimal |
| LiteralPrinter.QuotesInCharacters | gtest_x64-linux/src/gtest-printers.cc:149-166 | a character literal escapes the single quote and not the double one |
| LiteralPrinter.PlainExamples | gtest_x64-linux/src/gtest-printers.cc:340-361 | quotes and prefix of the empty literal, and a bell |
| LiteralPrinter.BreakExample | gtest_x64-linux/src/gtest-printers.cc:344-352 | the break between code 1 and an A, with its prefix |
| LiteralPrinter.NoBreakExample | gtest_x64-linux/src/gtest-printers.cc:344-352 | no break between code 1 and a g |
| LiteralPrinter.ReadAs | gtest_x64-linux/src/gtest-printers.cc:149-209 | what the reader takes every escape and every plain character for |
| LiteralPrinter.ReadOctal | gtest_x64-linux/src/gtest-printers.cc:152-154 | it takes at most three octal digits |
| LiteralPrinter.ReadHexadecimal | gtest_x64-linux/src/gtest-printers.cc:188-193 | it takes all hexadecimal digits there are |
| WideInteger.DivideBy10 | gtest_x64-linux/src/gtest-printers.cc:301-316 | one step is the exact division of high * 2^64 + low by 10, and its intermediate values stay below 2^64 |
| WideInteger.LongDivision | gtest_x64-linux/src/gtest-printers.cc:301-316 | quotient and last digit, computed in 64-bit words |
| WideInteger.ThirtyNineDigits | gtest_x64-linux/src/gtest-printers.cc:294-294 | 39 digits and the terminator fit into the 40-byte buffer |
| WideInteger.PrintUint128 | gtest_x64-linux/src/gtest-printers.cc:289-318 | prints the decimal numeral, never running out of the buffer |
| WideInteger.PrintInt128 | gtest_x64-linux/src/gtest-printers.cc:322-329 | right for every value, the minimum included |
| WideInteger.Widths | gtest_x64-linux/src/gtest-printers.cc:289-329 | the widths of the types as decimal numbers |
| WideInteger.Signs | gtest_x64-linux/src/gtest-printers.cc:322-329 | a minus sign for negative numbers and nothing for the others |
| Decimal.CanonicalIsNumeral | gtest_x64-linux/src/gtest-printers.cc:289-318 | a digit string without leading zeros is the numeral of its value, so the numeral is unique |
| Decimal.AppendDigit | gtest_x64-linux/src/gtest-printers.cc:289-318 | the numeral of 10 n + d is that of n followed by the digit d |
| Hexadecimal.NumeralReadsBack | gtest_x64-linux/src/gtest-printers.cc:188-193 | a hexadecimal numeral has only hexadecimal digits and its value is the number |
| Hexadecimal.AppendDigit | gtest_x64-linux/src/gtest-printers.cc:188-193 | the numeral of 16 n + d is that of n followed by the digit d, with capital letters |
| Hexadecimal.DigitsOfBothCases | gtest_x64-linux/src/gtest-printers.cc:188-193 | the reader knows the sixteen digits in both cases, and nothing else |
| XmlWriter.OutputXmlCDataSection | gtest_x64-linux/src/gtest.cc:4132-4149 | the section holds the text with every end marker broken up |
| XmlWriter.NoEarlyEnd | gtest_x64-linux/src/gtest.cc:4135-4146 | an end marker in the output comes from a break only, however the text overlaps it |
| XmlWriter.CDataReadsBack | gtest_x64-linux/src/gtest.cc:4132-4149 | an XML reader recovers exactly the text, for any number and overlap of end markers |
| XmlWriter.EscapeXml | gtest_x64-linux/src/gtest.cc:4015-4057 | every character is replaced by its escaped form |
| XmlWriter.RemoveInvalidXmlCharacters | gtest_x64-linux/src/gtest.cc:4062-4071 | keeps exactly the valid characters, in order |
| XmlWriter.AttributeReadsBack | gtest_x64-linux/src/gtest.cc:4015-4057 | under attribute-value normalization a reader recovers exactly the valid characters |
| XmlWriter.TextReadsBack | gtest_x64-linux/src/gtest.cc:4015-4057 | as element content, too, a reader recovers exactly the valid characters |
| XmlWriter.EscapedAs | gtest_x64-linux/src/gtest.cc:4015-4057 | what every character is written as in attributes and in content, by name and by code; control characters other than tab, newline and carriage return are dropped |
| XmlWriter.EscapedConcat | gtest_x64-linux/src/gtest.cc:4015-4057 | texts are escaped character by character |
| XmlWriter.KeptOrNot | gtest_x64-linux/src/gtest.cc:3898-3906 | a character is valid if its code is 9, 10, 13 or at least 32 |
| XmlWriter.PlainSection | gtest_x64-linux/src/gtest.cc:4132-4149 | a section as it is written, around a text without an end marker |
| XmlWriter.BrokenSection | gtest_x64-linux/src/gtest.cc:4132-4149 | a section as it is written, broken at an end marker |
| Shuffle.Random.constructor | gtest_x64-linux/include/gtest/internal/gtest-internal.h:869-880 | starts from the seed |
| Shuffle.Random.Generate | gtest_x64-linux/src/gtest.cc:391-405 | the next state of the generator, reduced to the range |
| Shuffle.ShuffleRange | gtest_x64-linux/src/gtest-internal-inl.h:303-323 | permutes the range in place by the draws of the generator |
| Shuffle.ShufflePermutes | gtest_x64-linux/src/gtest-internal-inl.h:303-323 | any draws permute the range and move nothing outside it |
| Shuffle.ShuffleInjective | gtest_x64-linux/src/gtest-internal-inl.h:303-323 | different draws give different orders of distinct elements |
| Shuffle.ShuffleSurjective | gtest_x64-linux/src/gtest-internal-inl.h:303-323 | every order of the range is reached by some draws |
| Shuffle.GeneratorInNumbers | gtest_x64-linux/src/gtest.cc:391-405 | the state is multiplied by 1103515245, increased by 12345 and reduced modulo 2147483648 |
| Shuffle.FirstNumbers | gtest_x64-linux/src/gtest.cc:391-405 | the first three numbers from state 1 |
| Shuffle.DrawsInTurn | gtest_x64-linux/src/gtest-internal-inl.h:303-323 | one number is drawn per width, from the whole range down to 2, each from the state before it |
| Shuffle.LastIsDrawnFirst | gtest_x64-linux/src/gtest-internal-inl.h:313-322 | the first draw says which element comes last |
| Shuffle.ThreeElements | gtest_x64-linux/src/gtest-internal-inl.h:303-323 | the order of three elements for each of the six draws |
| Shuffle.ShuffledWithin | gtest_x64-linux/src/gtest-internal-inl.h:303-323 | a stretch is shuffled as if it stood alone |
| TestRegistry.WithSuiteFits | gtest_x64-linux/src/gtest.cc:5718-5750 | creating a suite on demand keeps names unique and the death test suites first |
| TestRegistry.RegisterFits | gtest_x64-linux/src/gtest.cc:5718-5750 | so does registering a test |
| TestRegistry.ShuffleAllFits | gtest_x64-linux/src/gtest.cc:6237-6249 | shuffling keeps the invariant and can be undone: what unshuffling restores is unchanged |
| TestRegistry.ShuffleKeepsTests | gtest_x64-linux/src/gtest.cc:6237-6249 | shuffling changes nothing about a suite but the order of its tests |
| TestRegistry.UnshuffleAllFits | gtest_x64-linux/src/gtest.cc:6252-6259 | unshuffling restores the order of registration |
| TestRegistry.RunFits | gtest_x64-linux/src/gtest.cc:5718-6259 | the invariant holds in every state reached by registering, shuffling and unshuffling |
| TestRegistry.DeathSuitesFirst | gtest_x64-linux/src/gtest.cc:5730-5749 | in the order of execution exactly the death test suites come first and every suite comes once |
| TestRegistry.RegistrationOrder | gtest_x64-linux/src/gtest.cc:5718-5750 | the suites are listed death test suites first, each kind in the order of first registration, whatever was shuffled in between |
| TestRegistry.RegisteredTests | gtest_x64-linux/src/gtest.cc:5718-5750 | in every reachable state every suite has exactly the tests registered for its name, in the order of registration |
| TestRegistry.WithSuiteNames | gtest_x64-linux/src/gtest.cc:5730-5749 | a new death test suite is listed behind the other death test suites, any other new suite last, and a known name changes nothing |
| TestRegistry.RegisteredLast | gtest_x64-linux/src/gtest-internal-inl.h:671-692 | a test becomes the last of its suite and leaves the other suites alone |
| TestRegistry.DeathTestName | gtest_x64-linux/src/gtest.cc:171-171 | a death test suite is one whose name ends in DeathTest or contains DeathTest/ |
| TestRegistry.ShuffleInParts | gtest_x64-linux/src/gtest.cc:6237-6249 | the death test suites and the others are shuffled by themselves, the former with the earlier draws, the tests with the last |
| TestRegistry.TestsInTurn | gtest_x64-linux/src/gtest.cc:6245-6248 | the tests of the suites are shuffled one suite after the other |
| TestRegistry.UnitTestImpl.constructor | gtest_x64-linux/src/gtest.cc:5527-5565 | an empty registry |
| TestRegistry.UnitTestImpl.GetTestSuite | gtest_x64-linux/src/gtest.cc:5718-5750 | finds the suite or creates it where the invariant wants it |
| TestRegistry.UnitTestImpl.AddTestInfo | gtest_x64-linux/src/gtest-internal-inl.h:671-692 | adds the test to its suite and leaves every other suite alone |
| TestRegistry.UnitTestImpl.ShuffleVector | gtest_x64-linux/src/gtest-internal-inl.h:303-330 | shuffles a stretch of an index vector |
| TestRegistry.UnitTestImpl.ShuffleTests | gtest_x64-linux/src/gtest.cc:6237-6249 | shuffles death test suites, the other suites and the tests of each suite, in that order of draws, and keeps the invariant |
| TestRegistry.UnitTestImpl.UnshuffleTests | gtest_x64-linux/src/gtest.cc:6252-6259 | the order of registration |
| TestSelection.FilterSuite | gtest_x64-linux/src/gtest.cc:6081-6115 | marks the tests of one suite and the suite, and counts them |
| TestSelection.FilterTests | gtest_x64-linux/src/gtest.cc:6064-6117 | marks every test by filter, disabling and shard; a suite should run if and only if one of its tests should; the result counts the marked tests and is positive if and only if some suite runs; order and names are untouched |
| TestSelection.MarkedMeans | gtest_x64-linux/src/gtest.cc:6081-6110 | what is recorded for a test, from its names, the flags and its number: disabled by its own name or that of its suite, matching the filter as suite.test, in another shard by its number modulo the total, to be run if nothing speaks against it |
| TestSelection.TestsAreNumbered | gtest_x64-linux/src/gtest.cc:6065-6107 | the numbers run from 0 through the tests that filter and disabling let through, in the order of registration |
| TestSelection.FilteredSuite | gtest_x64-linux/src/gtest.cc:6081-6115 | every test of a filtered suite is marked by its own name and number, and the suite runs if and only if one of them does |
| TestSelection.ExactlyOneShard | gtest_x64-linux/src/gtest.cc:6053-6107 | over all shard indices a runnable test runs on exactly one shard and any other test on none |
| TestSelection.ShardSize | gtest_x64-linux/src/gtest.cc:6053-6055 | of the test numbers below any n a shard has n divided by the number of shards, or one more |
| TestSelection.ShardsAreBalanced | gtest_x64-linux/src/gtest.cc:6053-6116 | for any suites, filter and number of shards: what filtering selects on two shards differs by at most one test, and is the fair share exactly |
| TestSelection.ShardsSelectAll | gtest_x64-linux/src/gtest.cc:6053-6116 | what filtering selects on all shards adds up to the number of runnable tests |
| TestRun.IterationRunsInOrder | gtest_x64-linux/src/gtest.cc:2977-3058 | run or skipped, the selected tests start and end in the current order |
| TestRun.EachSelectedTestOnce | gtest_x64-linux/src/gtest.cc:2977-3058 | each selected test starts exactly once and ends exactly once, and no other test does |
| TestRun.SuiteStops | gtest_x64-linux/src/gtest.cc:2977-3028 | under fail_fast no body of a suite runs after a failure and the rest ends as skipped |
| TestRun.IterationStops | gtest_x64-linux/src/gtest.cc:5888-5898 | under fail_fast no body runs after a failure of a test or a suite, across suites, and the tests after it end as skipped |
| TestRun.SuiteFailsUnrolled | gtest_x64-linux/src/gtest.cc:2996-3028 | a suite that runs fails if and only if its set-up or tear-down or a selected test of it reports a failure |
| TestRun.ExactlyTheseRun | gtest_x64-linux/src/gtest.cc:2686-3058 | of the events of a selected test exactly those due occur, each once: start and end, with the verdict on its report if it runs and as skipped if not; set-up and tear-down of its fixture if it runs, was created without fatal failure or skip, and uses the fixture class of its suite; its body if moreover set-up left it without fatal failure or skip |
| TestRun.CountFixture | gtest_x64-linux/src/gtest.cc:2686-2706 | a fixture that runs is set up once and torn down once, and the body comes at most once, only between them |
| TestRun.FatalSetUpSkipsAll | gtest_x64-linux/src/gtest.cc:5899-5908 | after a fatal failure of global set-up every selected test is recorded as skipped |
| TestProgram.EveryIterationRunsEachTestOnce | gtest_x64-linux/src/gtest.cc:5838-5942 | in every iteration, shuffled or not, each selected test starts and ends exactly once, unless global set-up asked to skip, when none does |
| TestProgram.EveryIterationStopsAtFailure | gtest_x64-linux/src/gtest.cc:5838-5942 | in every iteration under fail_fast no body runs after a failure of a test or a suite; after a fatal failure of global set-up none runs at all |
| TestProgram.EveryIterationRunsExactly | gtest_x64-linux/src/gtest.cc:5838-5942 | in every iteration, shuffled or not, exactly the events of each test that are due occur, each once |
| TestProgram.BodyStartsExactlyWhen | gtest_x64-linux/src/gtest.cc:2686-2706 | a body starts if and only if global set-up neither skipped nor failed fatally, the test is selected, its suite's set-up did not fail, the test object was created without fatal failure or skip, its fixture class is that of the suite's first test, its own set-up left it without either too, and under fail_fast no selected test before it in the suite and no suite before it reports a failure |
| TestProgram.SkippingSetUpHasNoBody | gtest_x64-linux/src/gtest.cc:2693-2705 | a test whose set-up skips: its body never starts, it is torn down if and only if it was set up, and it ends as skipped if nothing else is reported |
| TestProgram.MixedFixturesHaveNoBody | gtest_x64-linux/src/gtest.cc:2488-2532 | a test with another fixture class than the first of its suite: neither set-up nor body nor tear-down starts, and the test does not pass |
| TestProgram.FailingEnvironmentStopsNothing | gtest_x64-linux/src/gtest.cc:5872-5898 | under fail_fast a global set-up that fails without a fatal failure stops nothing: every selected test runs |
| TestProgram.SeedsCycle | gtest_x64-linux/src/gtest-internal-inl.h:129-135 | every random seed is valid, so the check on it never fails, and the seeds run through all valid ones in a cycle |
| TestProgram.SeedsInNumbers | gtest_x64-linux/src/gtest-internal-inl.h:112-135 | the seeds run from 1 to 99999 and round again; a flag in that range is taken as it is, any other is brought into it |
| TestProgram.IterationEnvironments | gtest_x64-linux/src/gtest.cc:5860-5916 | an iteration sets environments up in order and tears them down in reverse, each under its own condition |
| TestProgram.EnvironmentsBalance | gtest_x64-linux/src/gtest.cc:5838-5942 | after any number of iterations, of a finite or an endless run, set-ups and tear-downs alternate, one round per iteration or one for the whole run |
| TestProgram.WholeRunBalances | gtest_x64-linux/src/gtest.cc:5838-5942 | a complete run ends with every environment torn down as often as set up |
| TestProgram.OutsideResultsStay | gtest_x64-linux/src/gtest-internal-inl.h:735-742 | what is reported outside the suites is never forgotten, not even between iterations |
| TestOutcome.ResultsMean | gtest_x64-linux/src/gtest.cc:2386-2412 | failed, failed fatally and skipped in terms of the parts reported: a skip counts only without a failure |
| TestOutcome.TestRunsExactlyWhen | gtest_x64-linux/src/gtest.cc:2686-2863 | in the trace of any iteration: when a test is started, created, complained about, set up, run, torn down and deleted - each from the calls before it, what they report, and under fail_fast the tests that ended as failed |
| TestOutcome.DisabledExactlyWhen | gtest_x64-linux/src/gtest.cc:2817-2822 | a test is reported as disabled if and only if it is disabled, matches the filter, is not selected, and its suite gets to it |
| TestOutcome.TestEndsAsReported | gtest_x64-linux/src/gtest.cc:2686-2863 | a test ends as failed if and only if a call of user code that occurs for it in the trace reports a failure or its fixture class is wrong; otherwise as skipped if and only if it was not created or one of those calls reports a skip; otherwise as passed |
| TestOutcome.SuiteRunsExactlyWhen | gtest_x64-linux/src/gtest.cc:2977-3058 | when a suite is started, set up and torn down, and that it ends as failed if and only if its set-up or tear-down reports a failure or one of its tests ended as failed |
| TestOutcome.PassesExactlyWhen | gtest_x64-linux/src/gtest.cc:5842-5932 | an iteration passes if and only if nothing had failed outside the suites before and no call of user code that occurs in its trace - of environments, suites or tests - reports a failure |
| TestOutcome.RunPassesExactlyWhen | gtest_x64-linux/src/gtest.cc:5838-5942 | so does a run of any number of iterations |
| TestOrder.RunIsOrderly | gtest_x64-linux/src/gtest.cc:5838-5942 | in the trace of any number of iterations every event is followed by one that may come next: the order of all calls of user code within tests, suites, environments and iterations |
| RunLoop.TestRunner.RunTest | gtest_x64-linux/src/gtest.cc:2817-2863 | creates, runs unless creation failed fatally or skipped, and deletes; the events and results are those of the iteration |
| RunLoop.TestRunner.RunFixture | gtest_x64-linux/src/gtest.cc:2686-2706 | fails on a wrong fixture class; otherwise sets up, runs the body if nothing forbids it, and tears down whatever happened |
| RunLoop.TestRunner.SkipTest | gtest_x64-linux/src/gtest.cc:2866-2890 | records the test as started and ended, skipped |
| RunLoop.TestRunner.SuiteFailed | gtest_x64-linux/include/gtest/gtest.h:732-735 | true if and only if a selected test failed or the suite itself did |
| RunLoop.TestRunner.RunTests | gtest_x64-linux/src/gtest.cc:2996-3013 | runs the tests in order; after a failed suite set-up, or under fail_fast a failed test, skips the rest |
| RunLoop.TestRunner.RunSuite | gtest_x64-linux/src/gtest.cc:2977-3028 | the events and results of a suite; the suite has failed if and only if a test or its own set-up or tear-down did |
| RunLoop.TestRunner.EndSuite | gtest_x64-linux/src/gtest.cc:3016-3021 | the suite's clean-up is part of its result, and its end says whether it failed |
| RunLoop.TestRunner.SkipSuite | gtest_x64-linux/src/gtest.cc:3031-3058 | the events of a skipped suite, which has not failed |
| RunLoop.TestRunner.SkipRemaining | gtest_x64-linux/src/gtest.cc:5891-5908 | skips the suites from a position on |
| RunLoop.TestRunner.RunSuites | gtest_x64-linux/src/gtest.cc:5885-5908 | runs the suites in the current order until fail_fast or a fatal set-up failure skips the rest |
| RunLoop.TestRunner.SetUpEnvironments | gtest_x64-linux/src/gtest.cc:5866-5868 | sets up in order |
| RunLoop.TestRunner.TearDownEnvironments | gtest_x64-linux/src/gtest.cc:5913-5916 | tears down in reverse order |
| RunLoop.TestRunner.RunIteration | gtest_x64-linux/src/gtest.cc:5842-5922 | one iteration: its events, the results reported outside tests, and which suites failed |
| RunLoop.TestRunner.Passed | gtest_x64-linux/src/gtest-internal-inl.h:579-585 | true if and only if no suite that ran failed and nothing outside of suites did |
| RunLoop.TestRunner.RunIterations | gtest_x64-linux/src/gtest.cc:5838-5942 | the events of the iterations with the seeds the code picks, the order of registration restored after each, and success if and only if every iteration passed |
| RunLoop.TestRunner.RunSelected | gtest_x64-linux/src/gtest.cc:5838-5942 | the same, with success if and only if no call of user code in any iteration reports a failure |
| RunLoop.SettingsMean | gtest_x64-linux/src/gtest.cc:5814-5840 | the settings from the flags: environments are recreated in an endless run whatever the flag says |
| RunLoop.TestRunner.RunAllTests | gtest_x64-linux/src/gtest.cc:5766-5960 | filters, then runs what filtering selected: the events of the whole run - or of any number of iterations of an endless one - and success if and only if nothing had failed before and no call of user code that occurs in any iteration reports a failure; nothing runs for help or a list of tests |

## Left out

- EditOptimality.OptimalIffNoTie: is about all pairs of prefixes at once; for one pair of inputs the exact condition, OptimalIffTightWalk, is about the moves taken, since whether a tie does harm depends on what the walk meets (HarmlessTie).
- DiffText.TextGivesRight: asks for lines without newline and NUL, which is what it means for a line to be printed as one line; the hunks themselves are right for all lines.
- RegexMatch.MatchRepetitionAndRegexAtHead: strings are no longer than the cap on repetitions, which no string in a 64-bit address space reaches.
- MutexProtocol.AssertHeldIsExact: only a thread that still holds the mutex unlocks it, which the code leaves to its callers; the mutex is a step relation rather than a class because its fields are shared between threads.
- RunLoop.TestRunner.RunAllTests: an endless run is modelled by its first k iterations, for every k; the clock is a parameter, and the results of one iteration are maps from positions to part results.
- TestRegistry.UnitTestImpl.GetTestSuite: suites and tests are values in a list, not heap objects behind pointers.
- XmlWriter.CDataReadsBack: the reader does not normalize line ends (section 2.11 of XML 1.0), which would change carriage returns in a section.
- XmlWriter.EscapeXml: characters are bytes; the encoding of the document is not modelled.
- DeathTestProtocol.OutcomeIsExact: grandchildren that inherit the write end of the pipe are not modelled.
- Exec-style, Windows and Fuchsia death tests, stream capture and stack set-up: foreign calls.
- Exceptions, SEH, timers, and the order of listeners: what user code does appears only as the results it reports; a constructor that throws leaves no object, and its destructor then reports nothing.
- POSIX regular expressions: the work is done by the C library.
- Console, JSON and XML report skeletons, sockets, flags, environment variables and file access: input, output and presentation.
- FilePath, counters and accessors of the public classes: they would only add easy members.
- The compression, event and Boost headers beside Google Test: declarations without the algorithms.
