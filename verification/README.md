# AI Code Mentor: issue detector and feedback synthesizer

This project is a Dafny model of the two pure functions at the heart of the AI
Code Mentor, together with proofs about them.

- `detectIssues(code, language)` runs a fixed battery of heuristic rules for
  the language (Python, C/C++, C#) and returns the issues found, in rule order.
  Each issue has a category, a severity, a line locator, a message and an
  explanation. When no rule fires, the result is a single "success" issue.
- `generateFeedback(issues, skillLevel)` turns an issue list into a summary,
  teaching points, reflective questions and next steps.
- `getSeverityColor(severity)` maps a severity to a display style.

Modules:

- `Text`: the JavaScript string operations the rules use. These are
  `includes`, `startsWith`, `endsWith`, `trim` with the JavaScript whitespace
  set, and `split`.
- `Scans`: `findIndex`, a loop that breaks at the first hit, an index
  filter, `filter`, and the concatenation of per-element lists that the
  feedback loop builds with `push`.
- `Decimal`: how a number is written into a template string.
- `Patterns`: each fixed regular expression, written out as the match a
  backtracking engine finds. This includes the global assignment scan
  `/(\w+)\s*=\s*.+/g` and the whole-word count `\bNAME\b`.
- `Issues`: the issue record and message counting.
- `Analyzer`: the rules and `DetectIssues`.
- `AnalyzerProps`: per-rule guarantees stated against the detector's whole
  output.
- `Feedback`: `GenerateFeedback`, `SeverityColor` and their properties.
- `Pipeline`: detection followed by feedback.

The model follows the code in these details:

- The base-case rule also requires the word `factorial` in the code.
- Teaching points are triggered by substrings of the issue message and the
  issue category, not by a separate issue tag.
- `getSeverityColor` maps every string other than `high`, `medium` and `low`
  to green, not only `none`.

## Model

| member | source | states |
|---|---|---|
| Text.ContainsIff | src/utils/codeAnalyzer.js:6 | `includes` holds exactly when the text occurs at some position of the string |
| Text.TrimSpec | src/utils/codeAnalyzer.js:91 | `trim` drops exactly the leading and trailing JavaScript whitespace and keeps the middle untouched |
| Text.JoinSplit | src/utils/codeAnalyzer.js:89 | joining the pieces of `split` with the separator gives back the original string |
| Text.SplitJoin | src/utils/codeAnalyzer.js:89 | splitting a join of separator-free pieces gives back the pieces |
| Text.SplitKeepsOccurrence | src/utils/codeAnalyzer.js:10 | text without a newline that occurs in the code occurs in one of its lines |
| Text.SplitPieceContained | src/utils/codeAnalyzer.js:10 | text contained in a line of the code is contained in the code |
| Scans.FindIndexSpec | src/utils/codeAnalyzer.js:10 | `findIndex` returns the first index whose element passes the test, and -1 exactly when none passes |
| Scans.FirstIndex | src/utils/codeAnalyzer.js:47 | a left-to-right search stopping at the first hit returns the first index passing the test, or -1 exactly when none does |
| Scans.Filter | src/utils/codeAnalyzer.js:60-63 | filtering keeps only elements of the list that pass the test, and keeps every such element |
| Scans.FilterAppend | src/utils/codeAnalyzer.js:60-63 | filtering distributes over concatenation, so kept elements stay in order |
| Scans.FlatMapMembership | src/utils/feedbackGenerator.js:33-87 | a value is in the concatenated per-element lists exactly when some element's list holds it |
| Scans.FlatMapAppend | src/utils/feedbackGenerator.js:33-87 | the concatenated per-element lists distribute over concatenation of the input |
| Scans.IndicesWhere | src/utils/codeAnalyzer.js:90-109 | the indices kept by a `forEach` are exactly those passing the test, in increasing order |
| Decimal.ParseNatToString | src/utils/feedbackGenerator.js:26 | the decimal text of a count reads back as that count |
| Decimal.NatToStringInjective | src/utils/feedbackGenerator.js:26 | different counts are written differently |
| Decimal.ReadLeadingNumber | src/utils/feedbackGenerator.js:26-27 | a count followed by a non-digit is read back exactly from the front of the text |
| Patterns.TokenThenSpaceIff | src/utils/codeAnalyzer.js:17 | `/^\S+\s+/` matches exactly when the code opens with a non-space run followed by a space |
| Patterns.HasRangeCallIff | src/utils/codeAnalyzer.js:47 | the search for `range(\w+)` succeeds exactly when some position holds `range(`, a word and `)` |
| Patterns.HasIndexExprIff | src/utils/codeAnalyzer.js:112 | the search for `\w+[\w+]` succeeds exactly when some position holds a word, `[`, a word and `]` |
| Patterns.HasBareDeclIff | src/utils/codeAnalyzer.js:134 | the `int`/`float` declaration search succeeds exactly when either keyword is followed by spaces, a word and `;` |
| Patterns.AssignMatchShape | src/utils/codeAnalyzer.js:58 | every assignment match is a word, spaces, `=`, then a non-empty run that stops only at a line end |
| Patterns.AssignMatchesFrom | src/utils/codeAnalyzer.js:58 | the global scan returns genuine matches, inside the code, in order, without overlap |
| Patterns.AssignMatchesCover | src/utils/codeAnalyzer.js:58 | the scan misses nothing: every position where the pattern matches lies inside a reported match |
| Patterns.AssignMatchesStartWords | src/utils/codeAnalyzer.js:58 | every reported match starts at the beginning of a word |
| Patterns.VarNameIsWord | src/utils/codeAnalyzer.js:61 | the text before the first `=`, trimmed, is the match's leading word |
| Patterns.WholeWordsDisjoint | src/utils/codeAnalyzer.js:62 | whole-word occurrences of a non-empty word never overlap, so the global `\bNAME\b` match finds each counted position |
| Patterns.CountOnePinsOccurrence | src/utils/codeAnalyzer.js:62-63 | a name counted once as a whole word occurs as a whole word at exactly one position |
| Patterns.AssignedNameIsWholeWord | src/utils/codeAnalyzer.js:58-62 | the assigned name is itself a whole-word occurrence at its match |
| Analyzer.BaseCaseRule | src/utils/codeAnalyzer.js:6-14 | the base-case rule reports at most one issue, with a real category and severity |
| Analyzer.FirstIndentViolationSpec | src/utils/codeAnalyzer.js:19-32 | the indentation loop stops at the first violating line, and runs out exactly when no line violates |
| Analyzer.IndentRule | src/utils/codeAnalyzer.js:17-33 | the indentation rule reports at most one issue, because the loop breaks at the first hit |
| Analyzer.IndentRuleSpec | src/utils/codeAnalyzer.js:17-33 | an indentation issue is reported exactly when the guard holds and some line violates, at the first violating line |
| Analyzer.LoopRule | src/utils/codeAnalyzer.js:36-44 | the infinite-loop rule reports at most one issue |
| Analyzer.RangeRule | src/utils/codeAnalyzer.js:47-55 | the off-by-one rule reports at most one issue |
| Analyzer.FlaggedMatches | src/utils/codeAnalyzer.js:60-63 | exactly the matches whose name is used once and is not `_` are flagged, each drawn from the matches |
| Analyzer.FlaggedMatchesAppend | src/utils/codeAnalyzer.js:60 | flagging keeps match order: it distributes over concatenation of match lists |
| Analyzer.UnusedIssues | src/utils/codeAnalyzer.js:60-72 | one unused-variable issue per flagged match, in match order, never more issues than matches |
| Analyzer.UnusedRule | src/utils/codeAnalyzer.js:58-73 | every unused-variable issue has a real category and severity |
| Analyzer.ReturnRule | src/utils/codeAnalyzer.js:76-84 | the missing-return rule reports at most one issue |
| Analyzer.PythonIssues | src/utils/codeAnalyzer.js:4-85 | every Python issue has a category in logic/syntax/concept/style and a severity in high/medium/low |
| Analyzer.SemicolonIssues | src/utils/codeAnalyzer.js:89-109 | one missing-semicolon issue per line needing a terminator, at that line's 1-based number, in line order |
| Analyzer.BoundsRule | src/utils/codeAnalyzer.js:112-120 | the array-bounds rule reports at most one issue |
| Analyzer.LeakRule | src/utils/codeAnalyzer.js:123-131 | the memory-leak rule reports at most one issue |
| Analyzer.UninitRule | src/utils/codeAnalyzer.js:134-142 | the uninitialized-variable rule reports at most one issue |
| Analyzer.CIssues | src/utils/codeAnalyzer.js:87-143 | every C/C++ issue has a real category and severity |
| Analyzer.NullRule | src/utils/codeAnalyzer.js:147-155 | the null-reference rule reports at most one issue |
| Analyzer.DisposeRule | src/utils/codeAnalyzer.js:158-166 | the disposal rule reports at most one issue |
| Analyzer.CatchRule | src/utils/codeAnalyzer.js:169-177 | the generic-catch rule reports at most one issue |
| Analyzer.CSharpIssues | src/utils/codeAnalyzer.js:145-178 | every C# issue has a real category and severity |
| Analyzer.BatteryIssuesReal | src/utils/codeAnalyzer.js:4-178 | whatever the language, every rule issue has a real category and severity |
| Analyzer.DetectIssues | src/utils/codeAnalyzer.js:181-188 | the result is never empty; it is the single success issue exactly when no rule fires, and otherwise holds no success issue |
| AnalyzerProps.UnknownLanguageSucceeds | src/utils/codeAnalyzer.js:181-188 | any language tag other than python, c, cpp and csharp yields exactly the success issue, for any code |
| AnalyzerProps.CAndCppAgree | src/utils/codeAnalyzer.js:87 | `c` and `cpp` give the same issues |
| AnalyzerProps.LoopOnce | src/utils/codeAnalyzer.js:36-44 | Python output holds the infinite-loop message once when `while True` occurs without `break`, and never otherwise |
| AnalyzerProps.LeakOnce | src/utils/codeAnalyzer.js:123-131 | C/C++ output holds the memory-leak message once when `malloc` or `new` occurs without `free` or `delete`, and never otherwise |
| AnalyzerProps.IndentAtMostOnce | src/utils/codeAnalyzer.js:17-33 | the detector's output holds at most one indentation issue, and one exactly for Python code meeting the guard with a violating line |
| AnalyzerProps.LoopIff | src/utils/codeAnalyzer.js:36-44 | for Python, a logic/medium infinite-loop issue is present iff the code contains `while True` and not `break`, and then exactly once |
| AnalyzerProps.LeakIff | src/utils/codeAnalyzer.js:123-131 | for C/C++, a logic/high memory-leak issue is present iff the code contains `malloc` or `new` and neither `free` nor `delete`, and then exactly once |
| AnalyzerProps.BaseCaseOnce | src/utils/codeAnalyzer.js:6-14 | for Python, the base-case issue is reported once when the code has `factorial` and `n == 1` but not `n <= 1`, and never otherwise |
| AnalyzerProps.RangeOnce | src/utils/codeAnalyzer.js:47-55 | for Python, the off-by-one issue is reported once when a `range(word)` call occurs, and never otherwise |
| AnalyzerProps.ReturnOnce | src/utils/codeAnalyzer.js:76-84 | for Python, the missing-return issue is reported once when `def ` occurs without `return` or `print`, and never otherwise |
| AnalyzerProps.BoundsOnce | src/utils/codeAnalyzer.js:112-120 | for C/C++, the array-bounds issue is reported once when an index expression occurs without `if` or `while`, and never otherwise |
| AnalyzerProps.UninitOnce | src/utils/codeAnalyzer.js:134-142 | for C/C++, the uninitialized-variable issue is reported once when a bare `int` or `float` declaration occurs, and never otherwise |
| AnalyzerProps.NullOnce | src/utils/codeAnalyzer.js:147-155 | for C#, the null-reference issue is reported once when `.` occurs without `if` or `?.`, and never otherwise |
| AnalyzerProps.DisposeOnce | src/utils/codeAnalyzer.js:158-166 | for C#, the disposal issue is reported once when a StreamReader or FileStream is constructed without `using`, and never otherwise |
| AnalyzerProps.CatchOnce | src/utils/codeAnalyzer.js:169-177 | for C#, the generic-catch issue is reported once when `catch (Exception` occurs, and never otherwise |
| AnalyzerProps.SemicolonLinesSpec | src/utils/codeAnalyzer.js:90-100 | a line is reported exactly when it needs a terminator, each line once, in increasing order |
| AnalyzerProps.SemicolonIssuesLead | src/utils/codeAnalyzer.js:89-109 | for C/C++ the output opens with one syntax/high missing-semicolon issue per qualifying line, at line index + 1, in line order, and no other issue has that message |
| AnalyzerProps.UnusedNeverUnderscore | src/utils/codeAnalyzer.js:63 | the unused-variable rule never reports the name `_` |
| AnalyzerProps.UnusedMessageInjective | src/utils/codeAnalyzer.js:68 | the unused-variable message names its variable unambiguously |
| AnalyzerProps.UnusedFlagsSingleUse | src/utils/codeAnalyzer.js:58-68 | each reported name is the leading word of an assignment match, is not `_`, and occurs as a whole word exactly once, at that match |
| AnalyzerProps.UnusedComplete | src/utils/codeAnalyzer.js:60-71 | every assignment match whose name is used once and is not `_` is reported |
| AnalyzerProps.LineOfFindsFirst | src/utils/codeAnalyzer.js:10 | for text without a newline, the locator is 0 exactly when the code lacks the text, and otherwise the 1-based number of the first line containing it |
| AnalyzerProps.LineOfMultiLine | src/utils/codeAnalyzer.js:67 | text spanning a line break lies in no line, so the locator reports 0 |
| Feedback.QuestionsOf | src/utils/feedbackGenerator.js:33-87 | a teaching list yields at most one question per teaching point |
| Feedback.QuestionsOfMembership | src/utils/feedbackGenerator.js:33-87 | a question is asked exactly when a teaching point that carries it is given |
| Feedback.TeachingForSpec | src/utils/feedbackGenerator.js:34-86 | each teaching point of an issue is added exactly when its trigger fires; beginners get Recursive Base Cases and Statement Terminators, other levels Edge Case Handling |
| Feedback.QuestionsForPaired | src/utils/feedbackGenerator.js:34-86 | an issue's questions are exactly the questions of its teaching points, in the same order |
| Feedback.QuestionsFollowTeaching | src/utils/feedbackGenerator.js:33-87 | the whole question list is the questions of the whole teaching list, in order |
| Feedback.TeachingAppend | src/utils/feedbackGenerator.js:33 | teaching points follow issue order: they distribute over concatenation of issue lists |
| Feedback.TeachingMembership | src/utils/feedbackGenerator.js:33-87 | a teaching point is given exactly when some issue triggers it |
| Feedback.HighCountZero | src/utils/feedbackGenerator.js:9 | the high-severity count is zero exactly when no issue is high-severity |
| Feedback.HasLogicIff | src/utils/feedbackGenerator.js:10 | `some(type === 'logic')` holds exactly when some issue has the logic category |
| Feedback.GenerateFeedback | src/utils/feedbackGenerator.js:1-105 | there are always 3 next steps and never more questions than teaching points; a success list gets no teaching, no questions and the testing steps; the summary is the one `Summary` selects |
| Feedback.SuccessFeedback | src/utils/feedbackGenerator.js:12-22 | a list opening with a success issue gets the same feedback as the success issue alone, and its summary depends only on whether the level is beginner |
| Feedback.NextStepsChoice | src/utils/feedbackGenerator.js:90-102 | outside the success case the next steps are the logic list iff some issue is logic, and the general list iff none is |
| Feedback.SummaryNoHigh | src/utils/feedbackGenerator.js:24-30 | outside the success case, with no high-severity issue the summary is the "Your code runs, but" sentence |
| Feedback.SummaryHigh | src/utils/feedbackGenerator.js:24-27 | outside the success case, with h > 0 high-severity issues the summary reads back as h |
| Feedback.SummaryHighPlural | src/utils/feedbackGenerator.js:26-27 | in that summary, "critical issue" follows the count and takes an `s` exactly when h > 1 |
| Feedback.SummaryIsCritical | src/utils/feedbackGenerator.js:24-27 | outside the success case, some high-severity issue makes the count positive and selects the critical-issue template for the level |
| Feedback.CriticalSummaryReadsBack | src/utils/feedbackGenerator.js:26-27 | both critical-issue templates embed the count so that it reads back exactly |
| Feedback.CriticalSummaryPlural | src/utils/feedbackGenerator.js:26-27 | both templates write "critical issue" after the count and pluralise it exactly when the count exceeds 1 |
| Feedback.EmptyIssues | src/utils/feedbackGenerator.js:12-30 | an empty list is not a success: generic summary, no teaching, no questions, the general next steps |
| Feedback.FeedbackLists | src/utils/feedbackGenerator.js:33-87 | outside the success case the feedback's teaching and questions are the per-issue lists concatenated in issue order |
| Feedback.TaughtWithQuestion | src/utils/feedbackGenerator.js:33-87 | a point an issue triggers is in the teaching list, and the question it carries is in the question list |
| Feedback.FeedbackEntries | src/utils/feedbackGenerator.js:33-87 | outside the success case a point is taught exactly when an issue triggers it, and a question asked exactly when a taught point carries it |
| Feedback.BaseCaseEntries | src/utils/feedbackGenerator.js:34-49 | Recursive Base Cases is taught iff the level is beginner and a base-case issue occurs; Edge Case Handling iff the level is not beginner and one occurs |
| Feedback.BaseCaseQuestionPaired | src/utils/feedbackGenerator.js:34-49 | the base-case question is asked exactly when Recursive Base Cases is taught, so Edge Case Handling asks nothing |
| Feedback.OtherEntries | src/utils/feedbackGenerator.js:69-86 | Statement Terminators is taught only to beginners; Null Safety iff some message mentions a null reference, whatever its category |
| Feedback.SeverityColor | src/utils/feedbackGenerator.js:107-114 | high, medium and low map to red, yellow and blue, each exactly; every other string maps to green |
| Feedback.SeverityColorOfSeverity | src/utils/feedbackGenerator.js:107-114 | on the detector's severities the colour is green exactly for `none` |
| Pipeline.RealIssueNotSuccess | src/utils/codeAnalyzer.js:181-188 | a detected list holding a real issue is not treated as a success by the synthesizer |
| Pipeline.SuccessFeedbackIffNoRule | src/utils/feedbackGenerator.js:12-22 | the synthesizer takes the success path exactly when no rule fired |
| Pipeline.UnknownLanguageFeedback | src/utils/feedbackGenerator.js:12-22 | an unknown language tag gets the success feedback: no teaching, no questions, the testing steps |
| Pipeline.IssueTeaches | src/utils/feedbackGenerator.js:33-87 | a point an issue of a non-success list triggers is taught, and its question is asked |
| Pipeline.DetectedTeaches | src/utils/feedbackGenerator.js:33-87 | a point triggered by a real detected issue is taught, and its question is asked |
| Pipeline.LeakTeachesMemory | src/utils/feedbackGenerator.js:60-67 | for C/C++, a detected memory leak always yields Memory Management and its question |
| Pipeline.LoopTeachesTermination | src/utils/feedbackGenerator.js:51-58 | for Python, a detected infinite loop always yields Loop Termination and its question |
| Pipeline.NullTeachesSafety | src/utils/feedbackGenerator.js:79-86 | for C#, a detected null dereference always yields Null Safety and its question |
| Pipeline.GreenOnlyForSuccess | src/utils/feedbackGenerator.js:107-114 | a detected issue is coloured green exactly when it is the success issue |

## Left out

- `src/App.js` is not part of this model. It holds the React page, the stored progress counters, the artificial delay before detection, and older inline copies of the two functions.
- Explanation, teaching and question texts are kept by name (the `Explanation`, `TeachingPoint` and `Question` datatypes) and spelled out by `ExplanationText`, `ConceptExplanation`, `ConceptExample` and `QuestionText`. No property is stated about their wording.
- Issue records carry the category and severity as datatypes rather than strings. `KindName` and `SeverityName` give the strings the code stores.
- The success issue has no `line`, and the model writes it as `None`. Every other issue has `Some(n)`, where `0` means the locator search found nothing.
- Pipeline.LoopTeachesTermination: stated for Python only, because only the Python battery reports an infinite loop.
- AnalyzerProps.LineOfFindsFirst: characterises the locator only for search text without a newline. The unused-variable rule searches for its whole match, and `\s*` around `=` may take a newline (`x\n= 5`). That case is covered separately by AnalyzerProps.LineOfMultiLine: the source then reports line 0.
- Regular expressions are modelled pattern by pattern. There is no general engine.
- `\w` is the ASCII word set. `\s`, `.` and `trim` use the JavaScript whitespace and line-terminator sets, over Unicode scalar values rather than UTF-16 code units. A character outside the Basic Multilingual Plane is one `char` here but two code units in JavaScript, and strings holding lone surrogates are not modelled. No Unicode case folding or normalisation is modelled.
