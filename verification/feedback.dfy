/**
  The feedback synthesizer (`generateFeedback` and `getSeverityColor` in
  src/utils/feedbackGenerator.js): a summary chosen by the number of
  high-severity issues and the skill level, teaching points and questions
  triggered per issue, and one of three fixed next-step lists.
*/
module Feedback {
  import opened Wrappers
  import opened Text
  import opened Decimal
  import opened Issues
  import opened Scans

  /** The skill level the synthesizer singles out; every other level is treated alike. */
  const Beginner := "beginner"

  // ------------------------------------------------------ teaching points

  /**
    The six teaching points, kept by name; `ConceptName`, `ConceptExplanation`
    and `ConceptExample` spell out the record's three fields.
  */
  datatype TeachingPoint =
      RecursiveBaseCases
    | EdgeCaseHandling
    | LoopTermination
    | MemoryManagement
    | StatementTerminators
    | NullSafety

  function ConceptName(t: TeachingPoint): string {
    match t
    case RecursiveBaseCases => "Recursive Base Cases"
    case EdgeCaseHandling => "Edge Case Handling"
    case LoopTermination => "Loop Termination"
    case MemoryManagement => "Memory Management"
    case StatementTerminators => "Statement Terminators"
    case NullSafety => "Null Safety"
  }

  function ConceptExplanation(t: TeachingPoint): string {
    match t
    case RecursiveBaseCases => "Every recursive function needs a base case - a condition where it stops calling itself. Your base case should handle ALL stopping conditions, not just one value."
    case EdgeCaseHandling => "Your base case needs to handle edge cases. Consider: what are all the valid inputs that should stop the recursion?"
    case LoopTermination => "Every loop needs a way to exit. Without a break statement or a condition that becomes false, your loop will run forever."
    case MemoryManagement => "In C/C++, memory you allocate must be manually freed. Failing to do so causes memory leaks."
    case StatementTerminators => "In C/C++/Java/C#, most statements end with a semicolon. It tells the compiler where one statement ends and another begins."
    case NullSafety => "In C#, accessing members of a null object throws a NullReferenceException. Always check for null or use null-safe operators."
  }

  function ConceptExample(t: TeachingPoint): string {
    match t
    case RecursiveBaseCases => "For factorial, both 0! and 1! equal 1, so use: if n <= 1: return 1"
    case EdgeCaseHandling => "n <= 1 covers both 0 and 1, preventing infinite recursion."
    case LoopTermination => "Add a break statement when a certain condition is met, or use a condition that will eventually become false."
    case MemoryManagement => "int* ptr = new int[10]; // ... use it ... delete[] ptr;"
    case StatementTerminators => "int x = 5; // semicolon required"
    case NullSafety => "string result = myObject?.ToString() ?? \"default\";"
  }

  /** The four reflective questions, kept by name. */
  datatype Question = BaseCaseQuestion | LoopQuestion | MemoryQuestion | NullQuestion

  function QuestionText(q: Question): string {
    match q
    case BaseCaseQuestion => "What would happen if someone calls factorial(0)? Walk through the steps."
    case LoopQuestion => "Under what condition should this loop stop? How can you express that in code?"
    case MemoryQuestion => "Where in your code should you free the allocated memory?"
    case NullQuestion => "What happens if the object is null when you try to access its properties?"
  }

  /** The question pushed in the same branch as a teaching point, if any. */
  function QuestionOf(t: TeachingPoint): Option<Question> {
    match t
    case RecursiveBaseCases => Some(BaseCaseQuestion)
    case EdgeCaseHandling => None
    case LoopTermination => Some(LoopQuestion)
    case MemoryManagement => Some(MemoryQuestion)
    case StatementTerminators => None
    case NullSafety => Some(NullQuestion)
  }

  /** The teaching points that come with a question, and which. */
  lemma PointQuestions()
    ensures QuestionOf(RecursiveBaseCases) == Some(BaseCaseQuestion)
    ensures QuestionOf(LoopTermination) == Some(LoopQuestion)
    ensures QuestionOf(MemoryManagement) == Some(MemoryQuestion)
    ensures QuestionOf(NullSafety) == Some(NullQuestion)
  {
  }

  /** The questions paired with a list of teaching points, in order. */
  function QuestionsOf(ts: seq<TeachingPoint>): (r: seq<Question>)
    ensures |r| <= |ts|
    decreases |ts|
  {
    if ts == [] then []
    else (match QuestionOf(ts[0]) case Some(q) => [q] case None => []) + QuestionsOf(ts[1..])
  }

  /** A question is paired exactly when some teaching point in the list carries it. */
  lemma {:induction false} QuestionsOfMembership(ts: seq<TeachingPoint>, q: Question)
    ensures q in QuestionsOf(ts) <==> exists k :: 0 <= k < |ts| && QuestionOf(ts[k]) == Some(q)
    decreases |ts|
  {
    if ts != [] {
      QuestionsOfMembership(ts[1..], q);
      assert forall k :: 1 <= k < |ts| ==> ts[k] == ts[1..][k - 1];
      if exists k :: 0 <= k < |ts| && QuestionOf(ts[k]) == Some(q) {
        var k :| 0 <= k < |ts| && QuestionOf(ts[k]) == Some(q);
        if k > 0 {
          assert QuestionOf(ts[1..][k - 1]) == Some(q);
        }
      }
    }
  }

  /** Pairing questions with teaching points distributes over concatenation. */
  lemma {:induction false} QuestionsOfAppend(a: seq<TeachingPoint>, b: seq<TeachingPoint>)
    ensures QuestionsOf(a + b) == QuestionsOf(a) + QuestionsOf(b)
    decreases |a|
  {
    if a == [] {
      assert a + b == b;
    } else {
      assert (a + b)[1..] == a[1..] + b;
      QuestionsOfAppend(a[1..], b);
    }
  }

  // ------------------------------------------------------------ triggers

  /** The triggers test the issue's category and a substring of its message. */
  predicate BaseCaseTrigger(i: Issue) { i.kind == Logic && Contains(i.message, "base case") }
  predicate LoopTrigger(i: Issue) { i.kind == Logic && Contains(i.message, "infinite loop") }
  predicate LeakTrigger(i: Issue) { i.kind == Logic && Contains(i.message, "memory leak") }
  predicate SemicolonTrigger(i: Issue) { i.kind == Syntax && Contains(i.message, "semicolon") }
  /** The null-reference trigger ignores the category. */
  predicate NullTrigger(i: Issue) { Contains(i.message, "null reference") }

  /** A list holding `t` when `c` holds, and nothing otherwise: one `if (...) push(t)`. */
  function Part<T>(c: bool, t: T): seq<T> {
    if c then [t] else []
  }

  lemma QuestionsOfPart(c: bool, t: TeachingPoint)
    ensures QuestionsOf(Part(c, t)) == if c && QuestionOf(t).Some? then [QuestionOf(t).value] else []
  {
    if c {
      assert Part(c, t)[1..] == [];
    }
  }

  /** The base-case teaching point for a skill level. */
  function BaseCasePoint(beginner: bool): TeachingPoint {
    if beginner then RecursiveBaseCases else EdgeCaseHandling
  }

  /** The teaching points one issue adds, in the order the five tests run. */
  function TeachingFor(i: Issue, skill: string): seq<TeachingPoint> {
    Part(BaseCaseTrigger(i), BaseCasePoint(skill == Beginner))
    + Part(LoopTrigger(i), LoopTermination)
    + Part(LeakTrigger(i), MemoryManagement)
    + Part(SemicolonTrigger(i) && skill == Beginner, StatementTerminators)
    + Part(NullTrigger(i), NullSafety)
  }

  /** The questions one issue adds, in the order the five tests run. */
  function QuestionsFor(i: Issue, skill: string): seq<Question> {
    Part(BaseCaseTrigger(i) && skill == Beginner, BaseCaseQuestion)
    + Part(LoopTrigger(i), LoopQuestion)
    + Part(LeakTrigger(i), MemoryQuestion)
    + Part(NullTrigger(i), NullQuestion)
  }

  /**
    What one issue teaches: each point is added exactly when its trigger
    fires; the base-case trigger teaches Recursive Base Cases to a beginner
    and Edge Case Handling to everyone else, and Statement Terminators is
    for beginners only.
  */
  lemma TeachingForSpec(i: Issue, skill: string)
    ensures var r := TeachingFor(i, skill);
            && (RecursiveBaseCases in r <==> BaseCaseTrigger(i) && skill == Beginner)
            && (EdgeCaseHandling in r <==> BaseCaseTrigger(i) && skill != Beginner)
            && (LoopTermination in r <==> LoopTrigger(i))
            && (MemoryManagement in r <==> LeakTrigger(i))
            && (StatementTerminators in r <==> SemicolonTrigger(i) && skill == Beginner)
            && (NullSafety in r <==> NullTrigger(i))
  {
  }

  /** Each question of an issue is pushed together with its teaching point. */
  lemma QuestionsForPaired(i: Issue, skill: string)
    ensures QuestionsFor(i, skill) == QuestionsOf(TeachingFor(i, skill))
  {
    PartsPaired(BaseCaseTrigger(i), LoopTrigger(i), LeakTrigger(i), SemicolonTrigger(i), NullTrigger(i), skill == Beginner);
  }

  /** The pairing of `QuestionsForPaired`, for any outcome of the five tests. */
  lemma PartsPaired(base: bool, loop: bool, leak: bool, semi: bool, nullRef: bool, beginner: bool)
    ensures QuestionsOf(Part(base, BaseCasePoint(beginner)) + Part(loop, LoopTermination) + Part(leak, MemoryManagement)
                        + Part(semi && beginner, StatementTerminators) + Part(nullRef, NullSafety))
            == Part(base && beginner, BaseCaseQuestion) + Part(loop, LoopQuestion) + Part(leak, MemoryQuestion)
               + Part(nullRef, NullQuestion)
  {
    var b := Part(base, BaseCasePoint(beginner));
    var l := Part(loop, LoopTermination);
    var m := Part(leak, MemoryManagement);
    var s := Part(semi && beginner, StatementTerminators);
    var n := Part(nullRef, NullSafety);
    assert QuestionsOf(b + l) == Part(base && beginner, BaseCaseQuestion) + Part(loop, LoopQuestion) by {
      QuestionsOfAppend(b, l);
      PartQuestions(base, beginner);
      PartQuestions(loop, beginner);
    }
    assert QuestionsOf(b + l + m) == QuestionsOf(b + l) + Part(leak, MemoryQuestion) by {
      QuestionsOfAppend(b + l, m);
      PartQuestions(leak, beginner);
    }
    assert QuestionsOf(b + l + m + s) == QuestionsOf(b + l + m) by {
      QuestionsOfAppend(b + l + m, s);
      PartQuestions(semi && beginner, beginner);
    }
    assert QuestionsOf(b + l + m + s + n) == QuestionsOf(b + l + m + s) + Part(nullRef, NullQuestion) by {
      QuestionsOfAppend(b + l + m + s, n);
      PartQuestions(nullRef, beginner);
    }
  }

  /** The questions each conditional teaching point brings along. */
  lemma PartQuestions(c: bool, beginner: bool)
    ensures QuestionsOf(Part(c, BaseCasePoint(beginner))) == Part(c && beginner, BaseCaseQuestion)
    ensures QuestionsOf(Part(c, LoopTermination)) == Part(c, LoopQuestion)
    ensures QuestionsOf(Part(c, MemoryManagement)) == Part(c, MemoryQuestion)
    ensures QuestionsOf(Part(c, StatementTerminators)) == []
    ensures QuestionsOf(Part(c, NullSafety)) == Part(c, NullQuestion)
  {
    QuestionsOfPart(c, BaseCasePoint(beginner));
    QuestionsOfPart(c, LoopTermination);
    QuestionsOfPart(c, MemoryManagement);
    QuestionsOfPart(c, StatementTerminators);
    QuestionsOfPart(c, NullSafety);
  }

  /** `issues.forEach(...)`: the teaching points of every issue, in issue order. */
  function Teaching(issues: seq<Issue>, skill: string): seq<TeachingPoint> {
    FlatMap(issues, (i: Issue) => TeachingFor(i, skill))
  }

  /** `issues.forEach(...)`: the questions of every issue, in issue order. */
  function Questions(issues: seq<Issue>, skill: string): seq<Question> {
    FlatMap(issues, (i: Issue) => QuestionsFor(i, skill))
  }

  /** Every question is pushed together with a teaching point, in the same order. */
  lemma {:induction false} QuestionsFollowTeaching(issues: seq<Issue>, skill: string)
    ensures Questions(issues, skill) == QuestionsOf(Teaching(issues, skill))
    decreases |issues|
  {
    if issues != [] {
      QuestionsFollowTeaching(issues[1..], skill);
      QuestionsForPaired(issues[0], skill);
      QuestionsOfAppend(TeachingFor(issues[0], skill), Teaching(issues[1..], skill));
    }
  }

  /** Teaching points keep the issue order: they distribute over concatenation. */
  lemma TeachingAppend(a: seq<Issue>, b: seq<Issue>, skill: string)
    ensures Teaching(a + b, skill) == Teaching(a, skill) + Teaching(b, skill)
  {
    FlatMapAppend(a, b, (i: Issue) => TeachingFor(i, skill));
  }

  /** A teaching point is in the list exactly when some issue adds it. */
  lemma TeachingMembership(issues: seq<Issue>, skill: string, t: TeachingPoint)
    ensures t in Teaching(issues, skill) <==> exists k :: 0 <= k < |issues| && t in TeachingFor(issues[k], skill)
  {
    var f := (i: Issue) => TeachingFor(i, skill);
    FlatMapMembership(issues, f, t);
    assert forall k :: 0 <= k < |issues| ==> f(issues[k]) == TeachingFor(issues[k], skill);
  }

  // ------------------------------------------------------------- summary

  const SuccessBeginnerSummary := "Great work! Your code looks solid. Keep practicing!"
  const SuccessOtherSummary := "Code structure is sound. Consider edge cases and optimization."
  const ImprovementsSummary := "Your code runs, but there are some improvements we can make."

  const BeginnerPrefix := "I found "
  const CriticalIssue := " critical issue"
  const BeginnerClose := "that will prevent your code from running correctly. Let's work through them together!"
  const OtherClose := "detected. Review the base cases and control flow."

  /** `issues.filter(i => i.severity === 'high').length`. */
  function HighCount(issues: seq<Issue>): (r: nat)
    ensures r <= |issues|
    decreases |issues|
  {
    if issues == [] then 0
    else (if issues[0].severity == High then 1 else 0) + HighCount(issues[1..])
  }

  /** The count is zero exactly when no issue is high-severity. */
  lemma {:induction false} HighCountZero(issues: seq<Issue>)
    ensures HighCount(issues) == 0 <==> forall k :: 0 <= k < |issues| ==> issues[k].severity != High
    decreases |issues|
  {
    if issues != [] {
      HighCountZero(issues[1..]);
      assert forall k :: 1 <= k < |issues| ==> issues[k] == issues[1..][k - 1];
    }
  }

  /** `issues.some(i => i.type === 'logic')`. */
  predicate HasLogic(issues: seq<Issue>)
    decreases |issues|
  {
    issues != [] && (issues[0].kind == Logic || HasLogic(issues[1..]))
  }

  lemma {:induction false} HasLogicIff(issues: seq<Issue>)
    ensures HasLogic(issues) <==> exists k :: 0 <= k < |issues| && issues[k].kind == Logic
    decreases |issues|
  {
    if issues != [] {
      HasLogicIff(issues[1..]);
      assert forall k :: 1 <= k < |issues| ==> issues[k] == issues[1..][k - 1];
      if exists k :: 0 <= k < |issues| && issues[k].kind == Logic {
        var k :| 0 <= k < |issues| && issues[k].kind == Logic;
        if k > 0 {
          assert issues[1..][k - 1].kind == Logic;
        }
      }
    }
  }

  /** `issues[0]?.type === 'success'`: an empty list is not a success. */
  predicate IsSuccessList(issues: seq<Issue>) {
    |issues| > 0 && issues[0].kind == Success
  }

  /** What precedes the number in a critical-issue summary. */
  function CriticalPrefix(beginner: bool): string {
    if beginner then BeginnerPrefix else ""
  }

  /** What follows "critical issue": the plural `s` when `h > 1`, then the closing words. */
  function CriticalEnding(h: nat, beginner: bool): string {
    (if h > 1 then "s" else "") + " " + (if beginner then BeginnerClose else OtherClose)
  }

  /** The critical-issue summary, with `h` written in decimal and "issue" pluralised when `h > 1`. */
  function CriticalSummary(h: nat, beginner: bool): string {
    CriticalPrefix(beginner) + NatToString(h) + (CriticalIssue + CriticalEnding(h, beginner))
  }

  /** Reads the issue count back out of a critical-issue summary. */
  function ReadCount(summary: string, beginner: bool): nat {
    var s := if beginner && |BeginnerPrefix| <= |summary| then summary[|BeginnerPrefix|..] else summary;
    ParseDecimal(LeadingDigits(s))
  }

  /** A number followed by a space reads back after any prefix. */
  lemma ReadsBackAfter(pre: string, h: nat, tail: string)
    requires |tail| > 0 && tail[0] == ' '
    ensures ParseDecimal(LeadingDigits((pre + NatToString(h) + tail)[|pre|..])) == h
  {
    assert (pre + NatToString(h) + tail)[|pre|..] == NatToString(h) + tail;
    ReadLeadingNumber(h, tail);
  }

  /** The summary embeds the count: it reads back as `h`. */
  lemma CriticalSummaryReadsBack(h: nat, beginner: bool)
    ensures ReadCount(CriticalSummary(h, beginner), beginner) == h
  {
    var tail := CriticalIssue + CriticalEnding(h, beginner);
    assert tail[0] == CriticalIssue[0] == ' ';
    ReadsBackAfter(CriticalPrefix(beginner), h, tail);
  }

  /** The character after "critical issue" is `s` exactly when `h > 1`. */
  lemma CriticalEndingPlural(h: nat, beginner: bool)
    ensures var e := CriticalEnding(h, beginner);
            |e| > 0 && (e[0] == 's' <==> h > 1)
  {
  }

  /** "critical issue" follows the number and takes an `s` exactly when `h > 1`. */
  lemma CriticalSummaryPlural(h: nat, beginner: bool)
    ensures var s := CriticalSummary(h, beginner);
            var n := |CriticalPrefix(beginner)| + |NatToString(h)| + |CriticalIssue|;
            && n < |s|
            && s[n - |CriticalIssue|..n] == CriticalIssue
            && (s[n] == 's' <==> h > 1)
  {
    var pd := CriticalPrefix(beginner) + NatToString(h);
    var e := CriticalEnding(h, beginner);
    CriticalEndingPlural(h, beginner);
    SliceAfter(pd, CriticalIssue, e);
  }

  lemma SliceAfter(a: string, b: string, c: string)
    requires |c| > 0
    ensures var s := a + (b + c);
            && (s[|a|..|a| + |b|] == b)
            && s[|a| + |b|] == c[0]
  {
    assert a + (b + c) == (a + b) + c;
  }

  // ----------------------------------------------------------- next steps

  const TestingSteps := ["Test your code with various inputs", "Think about edge cases (empty input, very large numbers, etc.)", "Consider time and space complexity"]
  const LogicSteps := ["Fix the logical issues identified above", "Test your code with edge cases", "Add comments explaining your logic"]
  const GeneralSteps := ["Run your code with test cases", "Consider code readability and style", "Think about performance optimization"]

  // ------------------------------------------------------------- feedback

  datatype Feedback = Feedback(summary: string, teaching: seq<TeachingPoint>,
                               questions: seq<Question>, nextSteps: seq<string>)

  /** The summary sentence: fixed on success, otherwise chosen by the number of high-severity issues. */
  function Summary(issues: seq<Issue>, skill: string): string {
    if IsSuccessList(issues) then
      (if skill == Beginner then SuccessBeginnerSummary else SuccessOtherSummary)
    else
      var h := HighCount(issues);
      if h > 0 then CriticalSummary(h, skill == Beginner) else ImprovementsSummary
  }

  /** `generateFeedback(issues, skillLevel)`. */
  function GenerateFeedback(issues: seq<Issue>, skill: string): (f: Feedback)
    ensures f.summary == Summary(issues, skill)
    ensures |f.nextSteps| == 3
    ensures |f.questions| <= |f.teaching|
    ensures IsSuccessList(issues) ==> f.teaching == [] && f.questions == [] && f.nextSteps == TestingSteps
  {
    if IsSuccessList(issues) then
      Feedback(Summary(issues, skill), [], [], TestingSteps)
    else
      QuestionsFollowTeaching(issues, skill);
      Feedback(Summary(issues, skill), Teaching(issues, skill), Questions(issues, skill),
               if HasLogic(issues) then LogicSteps else GeneralSteps)
  }

  /**
    A list opening with a success issue gets the fixed success feedback
    whatever follows it; its summary depends only on whether the skill
    level is `beginner`.
  */
  lemma SuccessFeedback(issues: seq<Issue>, skill: string, other: string)
    requires IsSuccessList(issues)
    ensures GenerateFeedback(issues, skill) == GenerateFeedback([SuccessIssue], skill)
    ensures var f := GenerateFeedback(issues, skill);
            && f.teaching == [] && f.questions == [] && f.nextSteps == TestingSteps
            && (f.summary == SuccessBeginnerSummary || f.summary == SuccessOtherSummary)
            && ((skill == Beginner) == (other == Beginner) ==> GenerateFeedback(issues, other) == f)
  {
  }

  /**
    Outside the success case the next steps are the logic list exactly when
    some issue has the logic category, and the general list exactly when none does.
  */
  lemma NextStepsChoice(issues: seq<Issue>, skill: string)
    requires !IsSuccessList(issues)
    ensures var f := GenerateFeedback(issues, skill);
            && (f.nextSteps == LogicSteps <==> exists k :: 0 <= k < |issues| && issues[k].kind == Logic)
            && (f.nextSteps == GeneralSteps <==> forall k :: 0 <= k < |issues| ==> issues[k].kind != Logic)
  {
    HasLogicIff(issues);
    assert LogicSteps[0][0] != GeneralSteps[0][0];
  }

  /** Outside the success case, with no high-severity issue the summary is the fixed improvements sentence. */
  lemma SummaryNoHigh(issues: seq<Issue>, skill: string)
    requires !IsSuccessList(issues)
    requires forall k :: 0 <= k < |issues| ==> issues[k].severity != High
    ensures Summary(issues, skill) == ImprovementsSummary
  {
    HighCountZero(issues);
  }

  /**
    Outside the success case, with `h > 0` high-severity issues the summary
    embeds `h`: it reads back as `h`.
  */
  lemma SummaryHigh(issues: seq<Issue>, skill: string)
    requires !IsSuccessList(issues)
    requires exists k :: 0 <= k < |issues| && issues[k].severity == High
    ensures HighCount(issues) > 0
    ensures ReadCount(Summary(issues, skill), skill == Beginner) == HighCount(issues)
  {
    SummaryIsCritical(issues, skill);
    CriticalSummaryReadsBack(HighCount(issues), skill == Beginner);
  }

  /**
    With high-severity issues, "critical issue" follows the count in the
    summary and takes an `s` exactly when there is more than one.
  */
  lemma SummaryHighPlural(issues: seq<Issue>, skill: string)
    requires !IsSuccessList(issues)
    requires exists k :: 0 <= k < |issues| && issues[k].severity == High
    ensures var s := Summary(issues, skill);
            var h := HighCount(issues);
            var n := |CriticalPrefix(skill == Beginner)| + |NatToString(h)| + |CriticalIssue|;
            && n < |s|
            && s[n - |CriticalIssue|..n] == CriticalIssue
            && (s[n] == 's' <==> h > 1)
  {
    SummaryIsCritical(issues, skill);
    CriticalSummaryPlural(HighCount(issues), skill == Beginner);
  }

  /** With high-severity issues the summary is the critical-issue template for their count. */
  lemma SummaryIsCritical(issues: seq<Issue>, skill: string)
    requires !IsSuccessList(issues)
    requires exists k :: 0 <= k < |issues| && issues[k].severity == High
    ensures HighCount(issues) > 0
    ensures Summary(issues, skill) == CriticalSummary(HighCount(issues), skill == Beginner)
  {
    HighCountZero(issues);
  }

  /** An empty list is not a success: generic summary, nothing taught, the general next steps. */
  lemma EmptyIssues(skill: string)
    ensures GenerateFeedback([], skill) == Feedback(ImprovementsSummary, [], [], GeneralSteps)
  {
  }

  /**
    Outside the success case a teaching point is given exactly when some
    issue triggers it, and a question exactly when a teaching point given
    carries it.
  */
  lemma FeedbackEntries(issues: seq<Issue>, skill: string, t: TeachingPoint, q: Question)
    requires !IsSuccessList(issues)
    ensures var f := GenerateFeedback(issues, skill);
            && (t in f.teaching <==> exists k :: 0 <= k < |issues| && t in TeachingFor(issues[k], skill))
            && (q in f.questions <==> exists k :: 0 <= k < |f.teaching| && QuestionOf(f.teaching[k]) == Some(q))
  {
    TeachingMembership(issues, skill, t);
    QuestionsFollowTeaching(issues, skill);
    QuestionsOfMembership(Teaching(issues, skill), q);
  }

  /** Outside the success case the feedback lists are the per-issue teaching points and questions. */
  lemma FeedbackLists(issues: seq<Issue>, skill: string)
    requires !IsSuccessList(issues)
    ensures GenerateFeedback(issues, skill).teaching == Teaching(issues, skill)
    ensures GenerateFeedback(issues, skill).questions == Questions(issues, skill)
  {
  }

  /** A point an issue triggers is taught, and the question it carries is asked. */
  lemma TaughtWithQuestion(issues: seq<Issue>, skill: string, k: nat, t: TeachingPoint, q: Question)
    requires k < |issues| && t in TeachingFor(issues[k], skill) && QuestionOf(t) == Some(q)
    ensures t in Teaching(issues, skill) && q in Questions(issues, skill)
  {
    var ts := Teaching(issues, skill);
    TeachingMembership(issues, skill, t);
    var j :| 0 <= j < |ts| && ts[j] == t;
    QuestionsFollowTeaching(issues, skill);
    QuestionsOfMembership(ts, q);
  }

  /**
    By skill level: the base-case trigger gives Recursive Base Cases only for
    `beginner` and Edge Case Handling for every other level.
  */
  lemma BaseCaseEntries(issues: seq<Issue>, skill: string)
    ensures var t := Teaching(issues, skill);
            && (RecursiveBaseCases in t <==> skill == Beginner && exists k :: 0 <= k < |issues| && BaseCaseTrigger(issues[k]))
            && (EdgeCaseHandling in t <==> skill != Beginner && exists k :: 0 <= k < |issues| && BaseCaseTrigger(issues[k]))
  {
    TeachingMembership(issues, skill, RecursiveBaseCases);
    TeachingMembership(issues, skill, EdgeCaseHandling);
    forall k | 0 <= k < |issues| {
      TeachingForSpec(issues[k], skill);
    }
  }

  /**
    Statement Terminators is only for `beginner`; Null Safety comes with any
    issue whose message mentions a null reference, whatever its category.
  */
  lemma OtherEntries(issues: seq<Issue>, skill: string)
    ensures var t := Teaching(issues, skill);
            && (StatementTerminators in t <==> skill == Beginner && exists k :: 0 <= k < |issues| && SemicolonTrigger(issues[k]))
            && (NullSafety in t <==> exists k :: 0 <= k < |issues| && Contains(issues[k].message, "null reference"))
  {
    TeachingMembership(issues, skill, StatementTerminators);
    TeachingMembership(issues, skill, NullSafety);
    forall k | 0 <= k < |issues| {
      TeachingForSpec(issues[k], skill);
    }
  }

  /** The base-case question is asked exactly when Recursive Base Cases is taught; Edge Case Handling asks nothing. */
  lemma BaseCaseQuestionPaired(issues: seq<Issue>, skill: string)
    ensures BaseCaseQuestion in Questions(issues, skill) <==> RecursiveBaseCases in Teaching(issues, skill)
  {
    var t := Teaching(issues, skill);
    QuestionsFollowTeaching(issues, skill);
    QuestionsOfMembership(t, BaseCaseQuestion);
    if BaseCaseQuestion in Questions(issues, skill) {
      var k :| 0 <= k < |t| && QuestionOf(t[k]) == Some(BaseCaseQuestion);
      assert t[k] == RecursiveBaseCases;
    }
    if RecursiveBaseCases in t {
      var k :| 0 <= k < |t| && t[k] == RecursiveBaseCases;
      assert QuestionOf(t[k]) == Some(BaseCaseQuestion);
    }
  }

  /** `getSeverityColor(severity)`: a total lookup with green as the default. */
  const HighColor := "text-red-600 bg-red-50 border-red-200"
  const MediumColor := "text-yellow-600 bg-yellow-50 border-yellow-200"
  const LowColor := "text-blue-600 bg-blue-50 border-blue-200"
  const DefaultColor := "text-green-600 bg-green-50 border-green-200"

  function SeverityColor(severity: string): (r: string)
    ensures r == HighColor <==> severity == "high"
    ensures r == MediumColor <==> severity == "medium"
    ensures r == LowColor <==> severity == "low"
    ensures r == DefaultColor <==> severity != "high" && severity != "medium" && severity != "low"
  {
    assert HighColor[5] == 'r' && MediumColor[5] == 'y' && LowColor[5] == 'b' && DefaultColor[5] == 'g';
    if severity == "high" then HighColor
    else if severity == "medium" then MediumColor
    else if severity == "low" then LowColor
    else DefaultColor
  }

  /** On the analyzer's severities: red, yellow and blue for high, medium and low; green only for the fallback's 'none'. */
  lemma SeverityColorOfSeverity(sev: Severity)
    ensures SeverityColor(SeverityName(sev)) == DefaultColor <==> sev == NoSeverity
    ensures SeverityColor(SeverityName(sev)) == HighColor <==> sev == High
    ensures SeverityColor(SeverityName(sev)) == MediumColor <==> sev == Medium
    ensures SeverityColor(SeverityName(sev)) == LowColor <==> sev == Low
  {
  }
}
