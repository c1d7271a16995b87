/**
  The records the analyzer produces: an issue has a category (`type` in the
  analyzer's objects), a severity, an optional 1-based line locator, a short
  message and a longer explanation.
*/
module Issues {
  import opened Wrappers

  datatype IssueType = Logic | Syntax | Concept | Style | Success

  /** `NoSeverity` is the severity the analyzer spells 'none'. */
  datatype Severity = High | Medium | Low | NoSeverity

  /**
    `line` is None for the success issue, which carries no line; for every
    other issue it is `Some(n)`, where 0 means the locator search found no line.
  */
  datatype Issue = Issue(kind: IssueType, severity: Severity, line: Option<nat>,
                         message: string, explanation: Explanation)

  /**
    The fixed explanation an issue carries, one per rule. The texts are
    kept by name; `ExplanationText` spells each one out.
  */
  datatype Explanation =
      BaseCaseExplanation
    | IndentExplanation
    | LoopExplanation
    | RangeExplanation
    | ReturnExplanation
    | SemicolonExplanation
    | BoundsExplanation
    | LeakExplanation
    | UninitExplanation
    | NullExplanation
    | DisposeExplanation
    | CatchExplanation
    | UnusedExplanation
    | SuccessExplanation

  function ExplanationText(e: Explanation): string {
    match e
    case BaseCaseExplanation => "Your base case only handles n=1, but what happens when n=0? The function will recurse infinitely."
    case IndentExplanation => "Python requires consistent indentation. Code inside a function or after a colon must be indented."
    case LoopExplanation => "You have a \"while True\" loop without a break statement. How will this loop ever stop?"
    case RangeExplanation => "Remember: range(n) goes from 0 to n-1, not 0 to n. Is this what you intended?"
    case ReturnExplanation => "Your function does not have a return statement. Should it return something?"
    case SemicolonExplanation => "In C/C++, most statements must end with a semicolon. Did you forget one here?"
    case BoundsExplanation => "Are you checking if the index is within valid bounds? Accessing outside array bounds causes undefined behavior in C/C++."
    case LeakExplanation => "You allocated memory but never freed it. Every malloc() needs a free(), and every new needs a delete."
    case UninitExplanation => "In C/C++, variables are not automatically initialized. Always assign a value before using it."
    case NullExplanation => "Are you checking if the object is null before accessing its members? Consider using null-conditional operator (?.) or null checks."
    case DisposeExplanation => "Use a using statement to ensure resources are properly disposed. This prevents resource leaks."
    case CatchExplanation => "Consider catching more specific exception types. This makes your error handling more precise and maintainable."
    case UnusedExplanation => "Did you forget to use this variable, or is it unnecessary?"
    case SuccessExplanation => "Your code structure looks good. Consider testing it with different inputs to verify it works as expected."
  }

  /** The string the analyzer stores in an issue's `severity` field. */
  function SeverityName(s: Severity): string {
    match s
    case High => "high"
    case Medium => "medium"
    case Low => "low"
    case NoSeverity => "none"
  }

  /** The string the analyzer stores in an issue's `type` field. */
  function KindName(k: IssueType): string {
    match k
    case Logic => "logic"
    case Syntax => "syntax"
    case Concept => "concept"
    case Style => "style"
    case Success => "success"
  }

  /** An issue a rule reports: a real category and a real severity. */
  predicate IsRealIssue(i: Issue) {
    i.kind != Success && i.severity != NoSeverity
  }

  const SuccessMessage := "No obvious issues detected!"

  /** The fallback issue reported when no rule fires. */
  const SuccessIssue := Issue(Success, NoSeverity, None, SuccessMessage, SuccessExplanation)

  /** The number of issues carrying message `m`. */
  function CountMessage(issues: seq<Issue>, m: string): nat
    decreases |issues|
  {
    if issues == [] then 0
    else (if issues[0].message == m then 1 else 0) + CountMessage(issues[1..], m)
  }

  /** Counting messages distributes over concatenation. */
  lemma {:induction false} CountMessageAppend(a: seq<Issue>, b: seq<Issue>, m: string)
    ensures CountMessage(a + b, m) == CountMessage(a, m) + CountMessage(b, m)
    decreases |a|
  {
    if a != [] {
      assert (a + b)[1..] == a[1..] + b;
      CountMessageAppend(a[1..], b, m);
    } else {
      assert a + b == b;
    }
  }

  /** The count is zero exactly when no issue carries the message. */
  lemma {:induction false} CountMessageZero(issues: seq<Issue>, m: string)
    ensures CountMessage(issues, m) == 0 <==> forall k :: 0 <= k < |issues| ==> issues[k].message != m
    decreases |issues|
  {
    if issues != [] {
      CountMessageZero(issues[1..], m);
      assert forall k :: 1 <= k < |issues| ==> issues[k] == issues[1..][k - 1];
    }
  }
}
