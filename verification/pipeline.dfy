/**
  Detection followed by feedback, as the page runs them: the issues
  `detectIssues(code, language)` reports are handed to
  `generateFeedback(issues, skillLevel)`, and each issue's severity is
  coloured by `getSeverityColor`.
*/
module Pipeline {
  import opened Wrappers
  import opened Text
  import opened Issues
  import opened Analyzer
  import opened AnalyzerProps
  import opened Feedback

  /** The feedback for a piece of code. */
  function Review(code: string, language: string, skill: string): Feedback {
    GenerateFeedback(DetectIssues(code, language), skill)
  }

  /** A detected list holding a real issue is not treated as a success. */
  lemma RealIssueNotSuccess(code: string, language: string, i: Issue)
    requires i in DetectIssues(code, language) && IsRealIssue(i)
    ensures !IsSuccessList(DetectIssues(code, language))
  {
    var r := DetectIssues(code, language);
    if r != [SuccessIssue] {
      assert IsRealIssue(r[0]);
    }
  }

  /** The feedback is the success feedback exactly when no rule fires. */
  lemma SuccessFeedbackIffNoRule(code: string, language: string, skill: string)
    ensures IsSuccessList(DetectIssues(code, language)) <==> Battery(code, language) == []
    ensures Battery(code, language) == [] ==> Review(code, language, skill) == GenerateFeedback([SuccessIssue], skill)
  {
    var r := DetectIssues(code, language);
    if r != [SuccessIssue] {
      assert IsRealIssue(r[0]);
    }
  }

  /** An unknown language tag gets the success feedback, whatever the code. */
  lemma UnknownLanguageFeedback(code: string, language: string, skill: string)
    requires language != "python" && language != "c" && language != "cpp" && language != "csharp"
    ensures var f := Review(code, language, skill);
            f == GenerateFeedback([SuccessIssue], skill) && f.teaching == [] && f.questions == [] && f.nextSteps == TestingSteps
  {
    UnknownLanguageSucceeds(code, language);
  }

  /** A teaching point an issue of a non-success list triggers is given, with its question. */
  lemma IssueTeaches(issues: seq<Issue>, skill: string, k: nat, t: TeachingPoint, q: Question)
    requires k < |issues| && !IsSuccessList(issues) && t in TeachingFor(issues[k], skill)
    requires QuestionOf(t) == Some(q)
    ensures var f := GenerateFeedback(issues, skill);
            t in f.teaching && q in f.questions
  {
    FeedbackLists(issues, skill);
    TaughtWithQuestion(issues, skill, k, t, q);
  }

  /** A detected issue's teaching point is given, with its question. */
  lemma DetectedTeaches(code: string, language: string, skill: string, i: Issue, t: TeachingPoint, q: Question)
    requires i in DetectIssues(code, language) && IsRealIssue(i) && t in TeachingFor(i, skill)
    requires QuestionOf(t) == Some(q)
    ensures var f := Review(code, language, skill);
            t in f.teaching && q in f.questions
  {
    var r := DetectIssues(code, language);
    RealIssueNotSuccess(code, language, i);
    var k :| 0 <= k < |r| && r[k] == i;
    IssueTeaches(r, skill, k, t, q);
  }

  /** The memory-leak issue triggers Memory Management: its message mentions a memory leak. */
  lemma LeakIssueTeaches(code: string, skill: string)
    ensures IsRealIssue(LeakIssue(code)) && MemoryManagement in TeachingFor(LeakIssue(code), skill)
  {
    assert LeakMessage[10..21] == "memory leak";
    ContainsWitness(LeakMessage, "memory leak", 10);
    TeachingForSpec(LeakIssue(code), skill);
  }

  /** The infinite-loop issue triggers Loop Termination: its message mentions an infinite loop. */
  lemma LoopIssueTeaches(code: string, skill: string)
    ensures IsRealIssue(LoopIssue(code)) && LoopTermination in TeachingFor(LoopIssue(code), skill)
  {
    assert LoopMessage[10..23] == "infinite loop";
    ContainsWitness(LoopMessage, "infinite loop", 10);
    TeachingForSpec(LoopIssue(code), skill);
  }

  /** The null-dereference issue triggers Null Safety: its message mentions a null reference. */
  lemma NullIssueTeaches(code: string, skill: string)
    ensures IsRealIssue(NullIssue(code)) && NullSafety in TeachingFor(NullIssue(code), skill)
  {
    assert NullMessage == "Potential " + "null reference" + " exception";
    assert NullMessage[10..24] == "null reference";
    ContainsWitness(NullMessage, "null reference", 10);
    TeachingForSpec(NullIssue(code), skill);
  }

  /** For C and C++, a detected memory leak is always taught as Memory Management, with its question. */
  lemma LeakTeachesMemory(code: string, language: string, skill: string)
    requires language == "c" || language == "cpp"
    requires LeakCondition(code)
    ensures var f := Review(code, language, skill);
            MemoryManagement in f.teaching && MemoryQuestion in f.questions
  {
    LeakReported(code, language);
    LeakIssueTeaches(code, skill);
    PointQuestions();
    DetectedTeaches(code, language, skill, LeakIssue(code), MemoryManagement, MemoryQuestion);
  }

  /** For Python, a detected infinite loop is always taught as Loop Termination, with its question. */
  lemma LoopTeachesTermination(code: string, skill: string)
    requires LoopCondition(code)
    ensures var f := Review(code, "python", skill);
            LoopTermination in f.teaching && LoopQuestion in f.questions
  {
    LoopReported(code);
    LoopIssueTeaches(code, skill);
    PointQuestions();
    DetectedTeaches(code, "python", skill, LoopIssue(code), LoopTermination, LoopQuestion);
  }

  lemma NullReported(code: string)
    requires NullCondition(code)
    ensures NullIssue(code) in DetectIssues(code, "csharp")
  {
    assert Battery(code, "csharp") == CSharpIssues(code);
    InBattery(code, "csharp");
    assert NullIssue(code) in CSharpIssues(code);
  }

  /** For C#, a detected null dereference is always taught as Null Safety, with its question. */
  lemma NullTeachesSafety(code: string, skill: string)
    requires NullCondition(code)
    ensures var f := Review(code, "csharp", skill);
            NullSafety in f.teaching && NullQuestion in f.questions
  {
    NullReported(code);
    NullIssueTeaches(code, skill);
    PointQuestions();
    DetectedTeaches(code, "csharp", skill, NullIssue(code), NullSafety, NullQuestion);
  }

  /** A detected issue is coloured green exactly when it is the success fallback. */
  lemma GreenOnlyForSuccess(code: string, language: string, k: nat)
    requires k < |DetectIssues(code, language)|
    ensures var i := DetectIssues(code, language)[k];
            SeverityColor(SeverityName(i.severity)) == DefaultColor <==> i == SuccessIssue
  {
    var r := DetectIssues(code, language);
    SeverityColorOfSeverity(r[k].severity);
    if r != [SuccessIssue] {
      assert IsRealIssue(r[k]);
    }
  }
}
