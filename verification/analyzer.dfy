/**
  The issue detector (`detectIssues` in src/utils/codeAnalyzer.js): a battery
  of independent heuristic rules per language, each appending issues in a
  fixed order, and a success fallback when none fires.
*/
module Analyzer {
  import opened Wrappers
  import opened Text
  import opened Patterns
  import opened Issues
  import opened Scans

  // ------------------------------------------------------------ messages

  const BaseCaseMessage := "Incomplete base case in recursive function"
  const IndentMessage := "Indentation error"
  const LoopMessage := "Potential infinite loop"
  const RangeMessage := "Potential off-by-one error"
  const ReturnMessage := "Function may not return a value"
  const SemicolonMessage := "Missing semicolon"
  const BoundsMessage := "Potential array bounds violation"
  const LeakMessage := "Potential memory leak"
  const UninitMessage := "Potentially uninitialized variable"
  const NullMessage := "Potential null reference exception"
  const DisposeMessage := "Resource not properly disposed"
  const CatchMessage := "Catching generic Exception"

  const UnusedPrefix := "Variable '"
  const UnusedSuffix := "' is assigned but never used"

  /** The message of the unused-variable rule, naming the variable. */
  function UnusedMessage(name: string): string {
    UnusedPrefix + name + UnusedSuffix
  }

  // ------------------------------------------------------------ locators

  /** `code.split('\n').findIndex(p) + 1`: 0 when no line satisfies `p`. */
  function LineWhere(code: string, p: string -> bool): nat {
    FindIndex(Lines(code), p) + 1
  }

  /** `code.split('\n').findIndex(l => l.includes(t)) + 1` */
  function LineOf(code: string, t: string): nat {
    LineWhere(code, (l: string) => Contains(l, t))
  }

  // ------------------------------------------------------------- Python

  /** A factorial whose base case tests `n == 1` but never `n <= 1`. */
  predicate BaseCaseCondition(code: string) {
    Contains(code, "factorial") && Contains(code, "n == 1") && !Contains(code, "n <= 1")
  }

  /** The incomplete-base-case issue, at the first line mentioning `n == 1`. */
  function BaseCaseIssue(code: string): Issue {
    Issue(Logic, High, Some(LineOf(code, "n == 1")), BaseCaseMessage, BaseCaseExplanation)
  }

  function BaseCaseRule(code: string): (r: seq<Issue>)
    ensures |r| <= 1 && AllReal(r)
  {
    if BaseCaseCondition(code) then [BaseCaseIssue(code)] else []
  }

  /**
    Line `i` is a non-blank line that is not indented and does not open
    with `def` or `#`, and the line before it ends in a colon once trimmed.
  */
  predicate IndentViolation(lines: seq<string>, i: int) {
    && 0 < i < |lines|
    && Trim(lines[i]) != ""
    && !StartsWith(lines[i], " ")
    && !StartsWith(lines[i], "def")
    && !StartsWith(lines[i], "#")
    && EndsWith(Trim(lines[i - 1]), ":")
  }

  /**
    The `for` loop over the lines from `from` on that breaks at the first
    violation: its index, or -1 when the loop runs to the end.
  */
  function FirstIndentViolation(lines: seq<string>, from: nat): (r: int)
    ensures r == -1 || from <= r < |lines|
  {
    FirstIndex(|lines|, (i: nat) => IndentViolation(lines, i), from)
  }

  /** The loop stops at the first violating line, and runs out exactly when no line violates. */
  lemma FirstIndentViolationSpec(lines: seq<string>, from: nat)
    ensures var r := FirstIndentViolation(lines, from);
            && (r >= 0 ==> IndentViolation(lines, r) && forall j :: from <= j < r ==> !IndentViolation(lines, j))
            && (r == -1 <==> forall j :: from <= j < |lines| ==> !IndentViolation(lines, j))
  {
    var p := (i: nat) => IndentViolation(lines, i);
    assert forall j: nat :: p(j) == IndentViolation(lines, j);
  }

  /** Only checked when the code opens with a token and a space, and contains `def `. */
  predicate IndentGuard(code: string) {
    TokenThenSpace(code) && Contains(code, "def ")
  }

  /** The indentation check: at most one issue, at the first violating line. */
  function IndentRule(code: string): (r: seq<Issue>)
    ensures |r| <= 1 && AllReal(r)
  {
    if IndentGuard(code) then IndentIssues(FirstIndentViolation(Lines(code), 0)) else []
  }

  /** The indentation issue for the loop's result `i`: none when it ran out. */
  function IndentIssues(i: int): (r: seq<Issue>)
    ensures |r| <= 1 && AllReal(r)
    ensures |r| == 1 <==> i >= 0
    ensures |r| == 1 ==> r[0].line == Some(i + 1)
  {
    if i >= 0 then [Issue(Syntax, High, Some(i + 1), IndentMessage, IndentExplanation)] else []
  }

  /**
    The indentation issue is reported exactly when the guard holds and some
    line violates the rule, and it names the first violating line (1-based).
  */
  lemma IndentRuleSpec(code: string)
    ensures var r := IndentRule(code);
            && (|r| == 1 <==> IndentGuard(code) && exists i :: 0 <= i < |Lines(code)| && IndentViolation(Lines(code), i))
            && (|r| == 1 ==> && r[0].line.Some? && r[0].line.value >= 1
                             && IndentViolation(Lines(code), r[0].line.value - 1)
                             && forall j :: 0 <= j < r[0].line.value - 1 ==> !IndentViolation(Lines(code), j))
  {
    var lines := Lines(code);
    var i := FirstIndentViolation(lines, 0);
    FirstIndentViolationSpec(lines, 0);
    var r := IndentRule(code);
    if IndentGuard(code) && i >= 0 {
      assert r == IndentIssues(i);
      assert r[0].line.value - 1 == i;
      assert IndentViolation(lines, i);
    } else {
      assert r == [];
      assert IndentGuard(code) ==> forall j :: 0 <= j < |lines| ==> !IndentViolation(lines, j);
    }
  }

  /** A `while True` loop and no `break` anywhere in the code. */
  predicate LoopCondition(code: string) {
    Contains(code, "while True") && !Contains(code, "break")
  }

  /** The infinite-loop issue, at the first line mentioning `while True`. */
  function LoopIssue(code: string): Issue {
    Issue(Logic, Medium, Some(LineOf(code, "while True")), LoopMessage, LoopExplanation)
  }

  function LoopRule(code: string): (r: seq<Issue>)
    ensures |r| <= 1 && AllReal(r)
  {
    if LoopCondition(code) then [LoopIssue(code)] else []
  }

  /** A call `range(w)` with a single word argument. */
  predicate RangeCondition(code: string) {
    HasRangeCall(code)
  }

  /** The off-by-one issue, at the first line with such a call. */
  function RangeIssue(code: string): Issue {
    Issue(Concept, Low, Some(LineWhere(code, HasRangeCall)), RangeMessage, RangeExplanation)
  }

  function RangeRule(code: string): (r: seq<Issue>)
    ensures |r| <= 1 && AllReal(r)
  {
    if RangeCondition(code) then [RangeIssue(code)] else []
  }

  /** The assignment's name occurs exactly once as a whole word and is not `_`. */
  predicate Flagged(code: string, m: Span) {
    && m.start <= m.end <= |code|
    && var name := VarName(code, m);
       WholeWordCount(code, name) == 1 && name != "_"
  }

  /** The issue reported for an unused assignment match. */
  function UnusedIssue(code: string, m: Span): Issue
    requires m.start <= m.end <= |code|
  {
    Issue(Style, Low, Some(LineOf(code, code[m.start..m.end])), UnusedMessage(VarName(code, m)), UnusedExplanation)
  }

  /** The matches the unused-variable rule flags, in match order. */
  function FlaggedMatches(code: string, ms: seq<Span>): (r: seq<Span>)
    ensures |r| <= |ms|
    ensures forall k :: 0 <= k < |r| ==> r[k] in ms && Flagged(code, r[k])
    ensures forall m :: m in ms && Flagged(code, m) ==> m in r
  {
    var p := (m: Span) => Flagged(code, m);
    var r := Filter(ms, p);
    assert forall k :: 0 <= k < |r| ==> p(r[k]);
    assert forall m :: m in ms && Flagged(code, m) ==> p(m);
    r
  }

  /** Flagging keeps the match order: it distributes over concatenation. */
  lemma FlaggedMatchesAppend(code: string, a: seq<Span>, b: seq<Span>)
    ensures FlaggedMatches(code, a + b) == FlaggedMatches(code, a) + FlaggedMatches(code, b)
  {
    FilterAppend(a, b, (m: Span) => Flagged(code, m));
  }

  /** `varMatch.forEach(...)`: one issue for each flagged match, in match order. */
  function UnusedIssues(code: string, ms: seq<Span>): (r: seq<Issue>)
    ensures |r| == |FlaggedMatches(code, ms)| <= |ms|
    ensures forall k :: 0 <= k < |r| ==> r[k] == UnusedIssue(code, FlaggedMatches(code, ms)[k])
    ensures AllReal(r)
  {
    var f := FlaggedMatches(code, ms);
    seq(|f|, (k: int) requires 0 <= k < |f| => UnusedIssue(code, f[k]))
  }

  function UnusedRule(code: string): (r: seq<Issue>)
    ensures AllReal(r)
  {
    UnusedIssues(code, AssignMatches(code))
  }

  /** A function definition with neither `return` nor `print` anywhere in the code. */
  predicate ReturnCondition(code: string) {
    Contains(code, "def ") && !Contains(code, "return") && !Contains(code, "print")
  }

  /** The missing-return issue, at the first line mentioning `def `. */
  function ReturnIssue(code: string): Issue {
    Issue(Logic, Medium, Some(LineOf(code, "def ")), ReturnMessage, ReturnExplanation)
  }

  function ReturnRule(code: string): (r: seq<Issue>)
    ensures |r| <= 1 && AllReal(r)
  {
    if ReturnCondition(code) then [ReturnIssue(code)] else []
  }

  function PythonIssues(code: string): (r: seq<Issue>)
    ensures AllReal(r)
  {
    var a := BaseCaseRule(code) + IndentRule(code);
    var b := a + LoopRule(code);
    var c := b + RangeRule(code);
    var d := c + UnusedRule(code);
    AllRealAppend(BaseCaseRule(code), IndentRule(code));
    AllRealAppend(a, LoopRule(code));
    AllRealAppend(b, RangeRule(code));
    AllRealAppend(c, UnusedRule(code));
    AllRealAppend(d, ReturnRule(code));
    d + ReturnRule(code)
  }

  // -------------------------------------------------------------- C/C++

  /** A line that the missing-semicolon rule reports. */
  predicate NeedsTerminator(line: string) {
    var t := Trim(line);
    && t != ""
    && !EndsWith(t, ";") && !EndsWith(t, "{") && !EndsWith(t, "}")
    && !StartsWith(t, "#") && !StartsWith(t, "//")
    && !Contains(t, "if") && !Contains(t, "for") && !Contains(t, "while")
  }

  function SemicolonIssue(idx: nat): Issue {
    Issue(Syntax, High, Some(idx + 1), SemicolonMessage, SemicolonExplanation)
  }

  /** The indices of the lines the missing-semicolon rule reports, in order. */
  function SemicolonLines(lines: seq<string>): seq<nat> {
    IndicesWhere(lines, NeedsTerminator, 0)
  }

  /** `lines.forEach((line, idx) => ...)`: one issue per reported line, in line order. */
  function SemicolonIssues(lines: seq<string>): (r: seq<Issue>)
    ensures |r| == |SemicolonLines(lines)|
    ensures forall k :: 0 <= k < |r| ==> r[k] == SemicolonIssue(SemicolonLines(lines)[k])
    ensures AllReal(r)
  {
    var idx := SemicolonLines(lines);
    seq(|idx|, (k: int) requires 0 <= k < |idx| => SemicolonIssue(idx[k]))
  }

  /** An index expression `a[i]` and no `if` or `while` anywhere in the code. */
  predicate BoundsCondition(code: string) {
    HasIndexExpr(code) && !Contains(code, "if") && !Contains(code, "while")
  }

  /** The bounds issue, always reported at line 1. */
  function BoundsIssue(code: string): Issue {
    Issue(Logic, Medium, Some(1), BoundsMessage, BoundsExplanation)
  }

  function BoundsRule(code: string): (r: seq<Issue>)
    ensures |r| <= 1 && AllReal(r)
  {
    if BoundsCondition(code) then [BoundsIssue(code)] else []
  }

  /** An allocation (`malloc` or `new`) and no `free` or `delete` anywhere in the code. */
  predicate LeakCondition(code: string) {
    (Contains(code, "malloc") || Contains(code, "new")) && !Contains(code, "free") && !Contains(code, "delete")
  }

  /** The memory-leak issue, at the first line mentioning an allocation. */
  function LeakIssue(code: string): Issue {
    Issue(Logic, High, Some(LineWhere(code, (l: string) => Contains(l, "malloc") || Contains(l, "new"))),
          LeakMessage, LeakExplanation)
  }

  function LeakRule(code: string): (r: seq<Issue>)
    ensures |r| <= 1 && AllReal(r)
  {
    if LeakCondition(code) then [LeakIssue(code)] else []
  }

  /** A declaration `int x;` or `float x;` without an initializer. */
  predicate UninitCondition(code: string) {
    HasBareDecl(code)
  }

  /** The uninitialized-variable issue, always reported at line 1. */
  function UninitIssue(code: string): Issue {
    Issue(Logic, Medium, Some(1), UninitMessage, UninitExplanation)
  }

  function UninitRule(code: string): (r: seq<Issue>)
    ensures |r| <= 1 && AllReal(r)
  {
    if UninitCondition(code) then [UninitIssue(code)] else []
  }

  function CIssues(code: string): (r: seq<Issue>)
    ensures AllReal(r)
  {
    var a := SemicolonIssues(Lines(code)) + BoundsRule(code);
    var b := a + LeakRule(code);
    AllRealAppend(SemicolonIssues(Lines(code)), BoundsRule(code));
    AllRealAppend(a, LeakRule(code));
    AllRealAppend(b, UninitRule(code));
    b + UninitRule(code)
  }

  // ----------------------------------------------------------------- C#

  /** A member access `.` with no `if` and no `?.` anywhere in the code. */
  predicate NullCondition(code: string) {
    Contains(code, ".") && !Contains(code, "if") && !Contains(code, "?.")
  }

  /** The null-reference issue, always reported at line 1. */
  function NullIssue(code: string): Issue {
    Issue(Logic, Medium, Some(1), NullMessage, NullExplanation)
  }

  function NullRule(code: string): (r: seq<Issue>)
    ensures |r| <= 1 && AllReal(r)
  {
    if NullCondition(code) then [NullIssue(code)] else []
  }

  /** A stream opened with `new` and no `using` anywhere in the code. */
  predicate DisposeCondition(code: string) {
    (Contains(code, "new StreamReader") || Contains(code, "new FileStream")) && !Contains(code, "using")
  }

  /** The disposal issue, at the first line mentioning a stream type. */
  function DisposeIssue(code: string): Issue {
    Issue(Style, Medium, Some(LineWhere(code, (l: string) => Contains(l, "StreamReader") || Contains(l, "FileStream"))),
          DisposeMessage, DisposeExplanation)
  }

  function DisposeRule(code: string): (r: seq<Issue>)
    ensures |r| <= 1 && AllReal(r)
  {
    if DisposeCondition(code) then [DisposeIssue(code)] else []
  }

  /** A handler catching the generic `Exception`. */
  predicate CatchCondition(code: string) {
    Contains(code, "catch (Exception")
  }

  /** The generic-catch issue, at the first line with such a handler. */
  function CatchIssue(code: string): Issue {
    Issue(Style, Low, Some(LineOf(code, "catch (Exception")), CatchMessage, CatchExplanation)
  }

  function CatchRule(code: string): (r: seq<Issue>)
    ensures |r| <= 1 && AllReal(r)
  {
    if CatchCondition(code) then [CatchIssue(code)] else []
  }

  function CSharpIssues(code: string): (r: seq<Issue>)
    ensures AllReal(r)
  {
    var a := NullRule(code) + DisposeRule(code);
    AllRealAppend(NullRule(code), DisposeRule(code));
    AllRealAppend(a, CatchRule(code));
    a + CatchRule(code)
  }

  // ------------------------------------------------------------ detector

  /** The three language blocks run one after the other; at most one applies. */
  function Battery(code: string, language: string): seq<Issue> {
    (if language == "python" then PythonIssues(code) else [])
    + (if language == "c" || language == "cpp" then CIssues(code) else [])
    + (if language == "csharp" then CSharpIssues(code) else [])
  }

  /** Every issue of a list has a real category and severity. */
  predicate AllReal(issues: seq<Issue>) {
    forall k :: 0 <= k < |issues| ==> IsRealIssue(issues[k])
  }

  lemma AllRealAppend(a: seq<Issue>, b: seq<Issue>)
    requires AllReal(a) && AllReal(b)
    ensures AllReal(a + b)
  {
  }

  /** Every issue a rule battery reports has a real category and severity. */
  lemma BatteryIssuesReal(code: string, language: string)
    ensures AllReal(Battery(code, language))
  {
  }

  /** `detectIssues(code, language)` */
  function DetectIssues(code: string, language: string): (r: seq<Issue>)
    ensures |r| >= 1
    ensures r == [SuccessIssue] || AllReal(r)
    ensures forall k :: 0 <= k < |r| && r[k].kind == Success ==> r == [SuccessIssue]
    ensures r == [SuccessIssue] <==> Battery(code, language) == []
  {
    BatteryIssuesReal(code, language);
    var found := Battery(code, language);
    assert found != [] ==> !IsRealIssue(SuccessIssue) && IsRealIssue(found[0]);
    if found == [] then [SuccessIssue] else found
  }
}
