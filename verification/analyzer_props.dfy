/**
  Properties of the issue detector: the success fallback, the closed set of
  categories, and per-rule guarantees stated against the detector's whole
  output (how many issues carry a rule's message, and when).
*/
module AnalyzerProps {
  import opened Wrappers
  import opened Text
  import opened Scans
  import opened Patterns
  import opened Issues
  import opened Analyzer

  // ------------------------------------------------------- language blocks

  lemma PythonBattery(code: string)
    ensures Battery(code, "python") == PythonIssues(code)
  {
    assert PythonIssues(code) + [] + [] == PythonIssues(code);
  }

  lemma CBattery(code: string, language: string)
    requires language == "c" || language == "cpp"
    ensures Battery(code, language) == CIssues(code)
  {
    assert [] + CIssues(code) + [] == CIssues(code);
  }

  /** Any tag other than the four handled ones yields exactly the success issue, whatever the code. */
  lemma UnknownLanguageSucceeds(code: string, language: string)
    requires language != "python" && language != "c" && language != "cpp" && language != "csharp"
    ensures DetectIssues(code, language) == [SuccessIssue]
  {
    assert Battery(code, language) == [];
  }

  /** `c` and `cpp` run the same rules. */
  lemma CAndCppAgree(code: string)
    ensures DetectIssues(code, "c") == DetectIssues(code, "cpp")
  {
    CBattery(code, "c");
    CBattery(code, "cpp");
  }

  // ------------------------------------------------------ message counting

  /** Outside the fallback, the detector's messages are the battery's messages. */
  lemma DetectCount(code: string, language: string, m: string)
    requires m != SuccessMessage
    ensures CountMessage(DetectIssues(code, language), m) == CountMessage(Battery(code, language), m)
  {
  }

  /** No unused-variable issue carries a message not opening with `V`. */
  lemma UnusedCountOther(code: string, m: string)
    requires m == [] || m[0] != 'V'
    ensures CountMessage(UnusedRule(code), m) == 0
  {
    var r := UnusedRule(code);
    forall k | 0 <= k < |r| ensures r[k].message != m {
      var f := FlaggedMatches(code, AssignMatches(code));
      assert r[k].message == UnusedMessage(VarName(code, f[k]));
      assert r[k].message[0] == 'V';
    }
    CountMessageZero(r, m);
  }

  lemma PythonCount(code: string, m: string)
    ensures CountMessage(PythonIssues(code), m)
            == CountMessage(BaseCaseRule(code), m) + CountMessage(IndentRule(code), m)
               + CountMessage(LoopRule(code), m) + CountMessage(RangeRule(code), m)
               + CountMessage(UnusedRule(code), m) + CountMessage(ReturnRule(code), m)
  {
    var a, b, c, d, e, f := BaseCaseRule(code), IndentRule(code), LoopRule(code),
                            RangeRule(code), UnusedRule(code), ReturnRule(code);
    CountMessageAppend(a, b, m);
    CountMessageAppend(a + b, c, m);
    CountMessageAppend(a + b + c, d, m);
    CountMessageAppend(a + b + c + d, e, m);
    CountMessageAppend(a + b + c + d + e, f, m);
  }

  lemma CCount(code: string, m: string)
    ensures CountMessage(CIssues(code), m)
            == CountMessage(SemicolonIssues(Lines(code)), m) + CountMessage(BoundsRule(code), m)
               + CountMessage(LeakRule(code), m) + CountMessage(UninitRule(code), m)
  {
    var a, b, c, d := SemicolonIssues(Lines(code)), BoundsRule(code), LeakRule(code), UninitRule(code);
    CountMessageAppend(a, b, m);
    CountMessageAppend(a + b, c, m);
    CountMessageAppend(a + b + c, d, m);
  }

  /** The semicolon issues carry only their own message. */
  lemma SemicolonCountOther(lines: seq<string>, m: string)
    requires m != SemicolonMessage
    ensures CountMessage(SemicolonIssues(lines), m) == 0
  {
    CountMessageZero(SemicolonIssues(lines), m);
  }

  /** Python issue counts for a message no unused-variable issue carries. */
  lemma PythonCountNotUnused(code: string, m: string)
    requires m == [] || m[0] != 'V'
    ensures CountMessage(PythonIssues(code), m)
            == CountMessage(BaseCaseRule(code), m) + CountMessage(IndentRule(code), m)
               + CountMessage(LoopRule(code), m) + CountMessage(RangeRule(code), m)
               + CountMessage(ReturnRule(code), m)
  {
    PythonCount(code, m);
    UnusedCountOther(code, m);
  }

  /** C issue counts for a message no semicolon issue carries. */
  lemma CCountNotSemicolon(code: string, m: string)
    requires m != SemicolonMessage
    ensures CountMessage(CIssues(code), m)
            == CountMessage(BoundsRule(code), m) + CountMessage(LeakRule(code), m)
               + CountMessage(UninitRule(code), m)
  {
    CCount(code, m);
    SemicolonCountOther(Lines(code), m);
  }

  /** A non-empty battery is the detector's output. */
  lemma InBattery(code: string, language: string)
    ensures Battery(code, language) != [] ==> DetectIssues(code, language) == Battery(code, language)
  {
  }

  // -------------------------------------------------------- single rules

  /** A rule reporting at most one issue counts a message once exactly when it fires with it. */
  lemma CountOptional(fires: bool, i: Issue, m: string)
    ensures CountMessage(if fires then [i] else [], m) == (if fires && i.message == m then 1 else 0)
  {
  }

  lemma BaseCaseCount(code: string, m: string)
    ensures CountMessage(BaseCaseRule(code), m) == (if BaseCaseCondition(code) && m == BaseCaseMessage then 1 else 0)
  {
    CountOptional(BaseCaseCondition(code), BaseCaseIssue(code), m);
  }

  lemma IndentCount(code: string, m: string)
    ensures CountMessage(IndentRule(code), m) == (if m == IndentMessage then |IndentRule(code)| else 0)
  {
  }

  lemma LoopRuleCount(code: string, m: string)
    ensures CountMessage(LoopRule(code), m) == (if LoopCondition(code) && m == LoopMessage then 1 else 0)
  {
    CountOptional(LoopCondition(code), LoopIssue(code), m);
  }

  lemma RangeCount(code: string, m: string)
    ensures CountMessage(RangeRule(code), m) == (if RangeCondition(code) && m == RangeMessage then 1 else 0)
  {
    CountOptional(RangeCondition(code), RangeIssue(code), m);
  }

  lemma ReturnCount(code: string, m: string)
    ensures CountMessage(ReturnRule(code), m) == (if ReturnCondition(code) && m == ReturnMessage then 1 else 0)
  {
    CountOptional(ReturnCondition(code), ReturnIssue(code), m);
  }

  lemma BoundsCount(code: string, m: string)
    ensures CountMessage(BoundsRule(code), m) == (if BoundsCondition(code) && m == BoundsMessage then 1 else 0)
  {
    CountOptional(BoundsCondition(code), BoundsIssue(code), m);
  }

  lemma LeakRuleCount(code: string, m: string)
    ensures CountMessage(LeakRule(code), m) == (if LeakCondition(code) && m == LeakMessage then 1 else 0)
  {
    CountOptional(LeakCondition(code), LeakIssue(code), m);
  }

  lemma UninitCount(code: string, m: string)
    ensures CountMessage(UninitRule(code), m) == (if UninitCondition(code) && m == UninitMessage then 1 else 0)
  {
    CountOptional(UninitCondition(code), UninitIssue(code), m);
  }

  lemma NullCount(code: string, m: string)
    ensures CountMessage(NullRule(code), m) == (if NullCondition(code) && m == NullMessage then 1 else 0)
  {
    CountOptional(NullCondition(code), NullIssue(code), m);
  }

  lemma DisposeCount(code: string, m: string)
    ensures CountMessage(DisposeRule(code), m) == (if DisposeCondition(code) && m == DisposeMessage then 1 else 0)
  {
    CountOptional(DisposeCondition(code), DisposeIssue(code), m);
  }

  lemma CatchCount(code: string, m: string)
    ensures CountMessage(CatchRule(code), m) == (if CatchCondition(code) && m == CatchMessage then 1 else 0)
  {
    CountOptional(CatchCondition(code), CatchIssue(code), m);
  }

  lemma CSharpCount(code: string, m: string)
    ensures CountMessage(CSharpIssues(code), m)
            == CountMessage(NullRule(code), m) + CountMessage(DisposeRule(code), m) + CountMessage(CatchRule(code), m)
  {
    CountMessageAppend(NullRule(code), DisposeRule(code), m);
    CountMessageAppend(NullRule(code) + DisposeRule(code), CatchRule(code), m);
  }

  // ---------------------------------------------------------- indentation

  lemma IndentPython(code: string)
    ensures CountMessage(PythonIssues(code), IndentMessage) == |IndentRule(code)|
  {
    PythonCountNotUnused(code, IndentMessage);
    BaseCaseCount(code, IndentMessage);
    IndentCount(code, IndentMessage);
    LoopRuleCount(code, IndentMessage);
    RangeCount(code, IndentMessage);
    ReturnCount(code, IndentMessage);
  }

  lemma IndentC(code: string)
    ensures CountMessage(CIssues(code), IndentMessage) == 0
  {
    CCountNotSemicolon(code, IndentMessage);
    BoundsCount(code, IndentMessage);
    LeakRuleCount(code, IndentMessage);
    UninitCount(code, IndentMessage);
  }

  lemma IndentCSharp(code: string)
    ensures CountMessage(CSharpIssues(code), IndentMessage) == 0
  {
    CountMessageZero(CSharpIssues(code), IndentMessage);
  }

  /** The detector's output counts a message as the language's battery does. */
  lemma LanguageCount(code: string, language: string, m: string)
    requires m != SuccessMessage
    ensures CountMessage(DetectIssues(code, language), m)
            == if language == "python" then CountMessage(PythonIssues(code), m)
               else if language == "c" || language == "cpp" then CountMessage(CIssues(code), m)
               else if language == "csharp" then CountMessage(CSharpIssues(code), m)
               else 0
  {
    DetectCount(code, language, m);
    if language == "python" {
      PythonBattery(code);
    } else if language == "c" || language == "cpp" {
      CBattery(code, language);
    } else if language == "csharp" {
      assert Battery(code, language) == CSharpIssues(code);
    } else {
      assert Battery(code, language) == [];
    }
  }

  /**
    The indentation issue appears at most once in the detector's output:
    once exactly when the code is Python, the guard holds and some line
    violates the rule, and never otherwise.
  */
  lemma IndentAtMostOnce(code: string, language: string)
    ensures CountMessage(DetectIssues(code, language), IndentMessage) <= 1
    ensures CountMessage(DetectIssues(code, language), IndentMessage) == 1
            <==> language == "python" && IndentGuard(code)
                 && exists i :: 0 <= i < |Lines(code)| && IndentViolation(Lines(code), i)
  {
    LanguageCount(code, language, IndentMessage);
    IndentRuleSpec(code);
    IndentPython(code);
    IndentC(code);
    IndentCSharp(code);
  }

  // ---------------------------------------------------------- infinite loop

  lemma PythonLoopCount(code: string)
    ensures CountMessage(PythonIssues(code), LoopMessage) == (if LoopCondition(code) then 1 else 0)
  {
    PythonCountNotUnused(code, LoopMessage);
    BaseCaseCount(code, LoopMessage);
    IndentCount(code, LoopMessage);
    LoopRuleCount(code, LoopMessage);
    RangeCount(code, LoopMessage);
    ReturnCount(code, LoopMessage);
  }

  lemma LoopReported(code: string)
    requires LoopCondition(code)
    ensures LoopIssue(code) in DetectIssues(code, "python")
  {
    PythonBattery(code);
    InBattery(code, "python");
    assert LoopIssue(code) in PythonIssues(code);
  }

  lemma LoopOnce(code: string)
    ensures CountMessage(DetectIssues(code, "python"), LoopMessage) == (if LoopCondition(code) then 1 else 0)
  {
    LanguageCount(code, "python", LoopMessage);
    PythonLoopCount(code);
  }

  /**
    For Python, a logic/medium infinite-loop issue is reported exactly when
    the code contains `while True` and does not contain `break`, and then
    exactly once.
  */
  lemma LoopIff(code: string)
    ensures var r := DetectIssues(code, "python");
            && ((exists k :: 0 <= k < |r| && r[k].kind == Logic && r[k].severity == Medium && r[k].message == LoopMessage)
                <==> Contains(code, "while True") && !Contains(code, "break"))
            && CountMessage(r, LoopMessage) == (if LoopCondition(code) then 1 else 0)
  {
    LoopOnce(code);
    if LoopCondition(code) {
      LoopReported(code);
    }
    OnceIff(DetectIssues(code, "python"), LoopCondition(code), LoopIssue(code));
  }

  // ------------------------------------------------------------ memory leak

  lemma CLeakCount(code: string)
    ensures CountMessage(CIssues(code), LeakMessage) == (if LeakCondition(code) then 1 else 0)
  {
    CCountNotSemicolon(code, LeakMessage);
    BoundsCount(code, LeakMessage);
    LeakRuleCount(code, LeakMessage);
    UninitCount(code, LeakMessage);
  }

  lemma LeakReported(code: string, language: string)
    requires language == "c" || language == "cpp"
    requires LeakCondition(code)
    ensures LeakIssue(code) in DetectIssues(code, language)
  {
    CBattery(code, language);
    InBattery(code, language);
    assert LeakIssue(code) in CIssues(code);
  }

  lemma LeakOnce(code: string, language: string)
    requires language == "c" || language == "cpp"
    ensures CountMessage(DetectIssues(code, language), LeakMessage) == (if LeakCondition(code) then 1 else 0)
  {
    LanguageCount(code, language, LeakMessage);
    CLeakCount(code);
  }

  /**
    For C and C++, a logic/high memory-leak issue is reported exactly when
    the code contains `malloc` or `new` and contains neither `free` nor
    `delete`, and then exactly once.
  */
  lemma LeakIff(code: string, language: string)
    requires language == "c" || language == "cpp"
    ensures var r := DetectIssues(code, language);
            && ((exists k :: 0 <= k < |r| && r[k].kind == Logic && r[k].severity == High && r[k].message == LeakMessage)
                <==> (Contains(code, "malloc") || Contains(code, "new"))
                     && !Contains(code, "free") && !Contains(code, "delete"))
            && CountMessage(r, LeakMessage) == (if LeakCondition(code) then 1 else 0)
  {
    LeakOnce(code, language);
    if LeakCondition(code) {
      LeakReported(code, language);
    }
    OnceIff(DetectIssues(code, language), LeakCondition(code), LeakIssue(code));
  }

  /**
    When an issue's message is counted once if `c` holds and never otherwise,
    and the issue is present when `c` holds, an issue of its category,
    severity and message is present exactly when `c` holds.
  */
  lemma OnceIff(r: seq<Issue>, c: bool, i: Issue)
    requires CountMessage(r, i.message) == (if c then 1 else 0)
    requires c ==> i in r
    ensures (exists k :: 0 <= k < |r| && r[k].kind == i.kind && r[k].severity == i.severity && r[k].message == i.message) <==> c
  {
    CountMessageZero(r, i.message);
    if c {
      var k :| 0 <= k < |r| && r[k] == i;
    }
  }

  // ------------------------------------------------ the remaining rules

  /*
    Each remaining rule of a battery reports its issue exactly once when its
    condition holds and never otherwise: first counted on the battery, then
    on the detector's output.
  */

  lemma PythonBaseCaseCount(code: string)
    ensures CountMessage(PythonIssues(code), BaseCaseMessage) == (if BaseCaseCondition(code) then 1 else 0)
  {
    PythonCountNotUnused(code, BaseCaseMessage);
    BaseCaseCount(code, BaseCaseMessage);
    IndentCount(code, BaseCaseMessage);
    LoopRuleCount(code, BaseCaseMessage);
    RangeCount(code, BaseCaseMessage);
    ReturnCount(code, BaseCaseMessage);
  }

  lemma BaseCaseOnce(code: string)
    ensures CountMessage(DetectIssues(code, "python"), BaseCaseMessage) == (if BaseCaseCondition(code) then 1 else 0)
  {
    LanguageCount(code, "python", BaseCaseMessage);
    PythonBaseCaseCount(code);
  }

  lemma PythonRangeCount(code: string)
    ensures CountMessage(PythonIssues(code), RangeMessage) == (if RangeCondition(code) then 1 else 0)
  {
    PythonCountNotUnused(code, RangeMessage);
    BaseCaseCount(code, RangeMessage);
    IndentCount(code, RangeMessage);
    LoopRuleCount(code, RangeMessage);
    RangeCount(code, RangeMessage);
    ReturnCount(code, RangeMessage);
  }

  lemma RangeOnce(code: string)
    ensures CountMessage(DetectIssues(code, "python"), RangeMessage) == (if RangeCondition(code) then 1 else 0)
  {
    LanguageCount(code, "python", RangeMessage);
    PythonRangeCount(code);
  }

  lemma PythonReturnCount(code: string)
    ensures CountMessage(PythonIssues(code), ReturnMessage) == (if ReturnCondition(code) then 1 else 0)
  {
    PythonCountNotUnused(code, ReturnMessage);
    BaseCaseCount(code, ReturnMessage);
    IndentCount(code, ReturnMessage);
    LoopRuleCount(code, ReturnMessage);
    RangeCount(code, ReturnMessage);
    ReturnCount(code, ReturnMessage);
  }

  lemma ReturnOnce(code: string)
    ensures CountMessage(DetectIssues(code, "python"), ReturnMessage) == (if ReturnCondition(code) then 1 else 0)
  {
    LanguageCount(code, "python", ReturnMessage);
    PythonReturnCount(code);
  }

  lemma CBoundsCount(code: string)
    ensures CountMessage(CIssues(code), BoundsMessage) == (if BoundsCondition(code) then 1 else 0)
  {
    CCountNotSemicolon(code, BoundsMessage);
    BoundsCount(code, BoundsMessage);
    LeakRuleCount(code, BoundsMessage);
    UninitCount(code, BoundsMessage);
  }

  lemma BoundsOnce(code: string, language: string)
    requires language == "c" || language == "cpp"
    ensures CountMessage(DetectIssues(code, language), BoundsMessage) == (if BoundsCondition(code) then 1 else 0)
  {
    LanguageCount(code, language, BoundsMessage);
    CBoundsCount(code);
  }

  lemma CUninitCount(code: string)
    ensures CountMessage(CIssues(code), UninitMessage) == (if UninitCondition(code) then 1 else 0)
  {
    CCountNotSemicolon(code, UninitMessage);
    BoundsCount(code, UninitMessage);
    LeakRuleCount(code, UninitMessage);
    UninitCount(code, UninitMessage);
  }

  lemma UninitOnce(code: string, language: string)
    requires language == "c" || language == "cpp"
    ensures CountMessage(DetectIssues(code, language), UninitMessage) == (if UninitCondition(code) then 1 else 0)
  {
    LanguageCount(code, language, UninitMessage);
    CUninitCount(code);
  }

  lemma CSharpNullCount(code: string)
    ensures CountMessage(CSharpIssues(code), NullMessage) == (if NullCondition(code) then 1 else 0)
  {
    CSharpCount(code, NullMessage);
    NullCount(code, NullMessage);
    DisposeCount(code, NullMessage);
    CatchCount(code, NullMessage);
  }

  lemma NullOnce(code: string)
    ensures CountMessage(DetectIssues(code, "csharp"), NullMessage) == (if NullCondition(code) then 1 else 0)
  {
    LanguageCount(code, "csharp", NullMessage);
    CSharpNullCount(code);
  }

  lemma CSharpDisposeCount(code: string)
    ensures CountMessage(CSharpIssues(code), DisposeMessage) == (if DisposeCondition(code) then 1 else 0)
  {
    CSharpCount(code, DisposeMessage);
    NullCount(code, DisposeMessage);
    DisposeCount(code, DisposeMessage);
    CatchCount(code, DisposeMessage);
  }

  lemma DisposeOnce(code: string)
    ensures CountMessage(DetectIssues(code, "csharp"), DisposeMessage) == (if DisposeCondition(code) then 1 else 0)
  {
    LanguageCount(code, "csharp", DisposeMessage);
    CSharpDisposeCount(code);
  }

  lemma CSharpCatchCount(code: string)
    ensures CountMessage(CSharpIssues(code), CatchMessage) == (if CatchCondition(code) then 1 else 0)
  {
    CSharpCount(code, CatchMessage);
    NullCount(code, CatchMessage);
    DisposeCount(code, CatchMessage);
    CatchCount(code, CatchMessage);
  }

  lemma CatchOnce(code: string)
    ensures CountMessage(DetectIssues(code, "csharp"), CatchMessage) == (if CatchCondition(code) then 1 else 0)
  {
    LanguageCount(code, "csharp", CatchMessage);
    CSharpCatchCount(code);
  }

  // -------------------------------------------------------------- semicolon

  /** The reported lines are exactly the lines needing a terminator, each once, in increasing order. */
  lemma SemicolonLinesSpec(lines: seq<string>)
    ensures var idx := SemicolonLines(lines);
            && (forall i :: 0 <= i < |lines| ==> (i in idx <==> NeedsTerminator(lines[i])))
            && (forall k, k' :: 0 <= k < k' < |idx| ==> idx[k] < idx[k'])
            && (forall k :: 0 <= k < |idx| ==> idx[k] < |lines|)
  {
    var idx := SemicolonLines(lines);
    forall i | 0 <= i < |lines| && i in idx ensures NeedsTerminator(lines[i]) {
      var k :| 0 <= k < |idx| && idx[k] == i;
    }
  }

  /**
    For C and C++ the output opens with one missing-semicolon issue per line
    needing a terminator, at that line (1-based), in line order; no other
    issue carries that message.
  */
  lemma SemicolonIssuesLead(code: string, language: string)
    requires language == "c" || language == "cpp"
    ensures var r := DetectIssues(code, language);
            var idx := SemicolonLines(Lines(code));
            && |idx| <= |r|
            && (forall k :: 0 <= k < |idx| ==>
                  && r[k].kind == Syntax && r[k].severity == High && r[k].message == SemicolonMessage
                  && r[k].line == Some(idx[k] + 1) && NeedsTerminator(Lines(code)[idx[k]]))
            && CountMessage(r, SemicolonMessage) == |idx|
  {
    LanguageCount(code, language, SemicolonMessage);
    CSemicolonCount(code);
    CSemicolonLead(code);
    CDetect(code, language);
  }

  /** For C and C++ a non-empty battery is the detector's output. */
  lemma CDetect(code: string, language: string)
    requires language == "c" || language == "cpp"
    ensures CIssues(code) != [] ==> DetectIssues(code, language) == CIssues(code)
  {
    CBattery(code, language);
  }

  /** The C battery opens with the semicolon issues, in line order. */
  lemma CSemicolonLead(code: string)
    ensures var r := CIssues(code);
            var idx := SemicolonLines(Lines(code));
            && |idx| <= |r|
            && (forall k :: 0 <= k < |idx| ==>
                  && r[k].kind == Syntax && r[k].severity == High && r[k].message == SemicolonMessage
                  && r[k].line == Some(idx[k] + 1) && NeedsTerminator(Lines(code)[idx[k]]))
  {
    var sc := SemicolonIssues(Lines(code));
    assert CIssues(code)[..|sc|] == sc;
  }

  lemma CSemicolonCount(code: string)
    ensures CountMessage(CIssues(code), SemicolonMessage) == |SemicolonLines(Lines(code))|
  {
    CCount(code, SemicolonMessage);
    SemicolonCount(Lines(code));
    BoundsCount(code, SemicolonMessage);
    LeakRuleCount(code, SemicolonMessage);
    UninitCount(code, SemicolonMessage);
  }

  /** Every semicolon issue carries the semicolon message. */
  lemma SemicolonCount(lines: seq<string>)
    ensures CountMessage(SemicolonIssues(lines), SemicolonMessage) == |SemicolonLines(lines)|
  {
    var r := SemicolonIssues(lines);
    AllCarry(r, SemicolonMessage);
  }

  /** A list whose every issue carries `m` counts `m` once per issue. */
  lemma {:induction false} AllCarry(r: seq<Issue>, m: string)
    requires forall k :: 0 <= k < |r| ==> r[k].message == m
    ensures CountMessage(r, m) == |r|
    decreases |r|
  {
    if r != [] {
      AllCarry(r[1..], m);
    }
  }

  // -------------------------------------------------------- unused variable

  /** The unused-variable message names its variable unambiguously. */
  lemma UnusedMessageInjective(a: string, b: string)
    requires UnusedMessage(a) == UnusedMessage(b)
    ensures a == b
  {
    var p := |UnusedPrefix|;
    assert |a| == |b|;
    assert a == UnusedMessage(a)[p..p + |a|];
    assert b == UnusedMessage(b)[p..p + |b|];
  }

  /** The rule never reports the name `_`. */
  lemma UnusedNeverUnderscore(code: string)
    ensures forall k :: 0 <= k < |UnusedRule(code)| ==> UnusedRule(code)[k].message != UnusedMessage("_")
  {
    var r := UnusedRule(code);
    var f := FlaggedMatches(code, AssignMatches(code));
    forall k | 0 <= k < |r| ensures r[k].message != UnusedMessage("_") {
      assert r[k].message == UnusedMessage(VarName(code, f[k]));
      if r[k].message == UnusedMessage("_") {
        UnusedMessageInjective(VarName(code, f[k]), "_");
      }
    }
  }

  /**
    Each reported name belongs to an assignment match, is that match's
    leading word, is not `_`, and occurs in the whole code as a whole word
    exactly once: at the match itself.
  */
  lemma UnusedFlagsSingleUse(code: string, k: nat)
    requires k < |UnusedRule(code)|
    ensures var m := FlaggedMatches(code, AssignMatches(code))[k];
            var name := VarName(code, m);
            && m in AssignMatches(code)
            && UnusedRule(code)[k].message == UnusedMessage(name)
            && name == code[m.start..WordRunEnd(code, m.start)]
            && name != "_"
            && WholeWordCount(code, name) == 1
            && forall i :: WholeWordAt(code, name, i) ==> i == m.start
  {
    var ms := AssignMatches(code);
    var m := FlaggedMatches(code, ms)[k];
    var j :| 0 <= j < |ms| && ms[j] == m;
    assert AssignMatchAt(code, m.start) == Some(m.end);
    AssignMatchesStartWords(code, 0);
    assert m.start == 0 || !IsWordChar(code[m.start - 1]);
    VarNameIsWord(code, m.start, m.end);
    AssignedNameIsWholeWord(code, m);
    CountOnePinsOccurrence(code, VarName(code, m), m.start);
  }

  /** Every flagged assignment match is reported. */
  lemma UnusedComplete(code: string, m: Span)
    requires m in AssignMatches(code) && Flagged(code, m)
    ensures UnusedIssue(code, m) in UnusedRule(code)
  {
    var f := FlaggedMatches(code, AssignMatches(code));
    var k :| 0 <= k < |f| && f[k] == m;
    assert UnusedRule(code)[k] == UnusedIssue(code, m);
  }

  // --------------------------------------------------------------- locator

  /**
    `findIndex(l => l.includes(t)) + 1` for text without a newline: 0 exactly
    when the code does not contain `t`; otherwise the 1-based number of the
    first line containing it.
  */
  lemma LineOfFindsFirst(code: string, t: string)
    requires '\n' !in t
    ensures LineOf(code, t) == 0 <==> !Contains(code, t)
    ensures LineOf(code, t) > 0 ==>
              && LineOf(code, t) <= |Lines(code)|
              && Contains(Lines(code)[LineOf(code, t) - 1], t)
              && forall j :: 0 <= j < LineOf(code, t) - 1 ==> !Contains(Lines(code)[j], t)
  {
    var lines := Lines(code);
    var p := (l: string) => Contains(l, t);
    var i := FindIndex(lines, p);
    FindIndexSpec(lines, p);
    if Contains(code, t) {
      ContainsIff(code, t);
      var o :| 0 <= o <= |code| && OccursAt(code, t, o);
      SplitKeepsOccurrence(code, '\n', t, o);
      var k :| 0 <= k < |lines| && Contains(lines[k], t);
      assert p(lines[k]);
    }
    if i >= 0 {
      assert p(lines[i]);
      SplitPieceContained(code, '\n', i, t);
      forall j | 0 <= j < i ensures !Contains(lines[j], t) {
        assert !p(lines[j]);
      }
    }
  }

  /** A line of the code holds no text that spans a line break. */
  lemma NoContainsAcrossBreak(l: string, t: string)
    requires '\n' !in l && '\n' in t
    ensures !Contains(l, t)
  {
    var c :| 0 <= c < |t| && t[c] == '\n';
    forall i | 0 <= i <= |l| ensures !OccursAt(l, t, i) {
      if i + |t| <= |l| {
        assert l[i + c] in l;
        assert l[i..i + |t|][c] != t[c];
      }
    }
    ContainsIff(l, t);
  }

  /**
    Text spanning a line break (an assignment match whose `\s*` took a
    newline) lies in no line, so the locator reports line 0.
  */
  lemma LineOfMultiLine(code: string, t: string)
    requires '\n' in t
    ensures LineOf(code, t) == 0
  {
    var lines := Lines(code);
    var p := (l: string) => Contains(l, t);
    FindIndexSpec(lines, p);
    forall j | 0 <= j < |lines| ensures !p(lines[j]) {
      NoContainsAcrossBreak(lines[j], t);
    }
  }
}
