/**
 * The command builder of wbox_test.py: three prompts that read answers
 * line by line until one is decisive, and the builder of the shell command
 * that runs one white-box test.
 */
module WboxTest {
  import opened Wrappers
  import opened Text

  // ---------------------------------------------------------------------
  // Answers
  // ---------------------------------------------------------------------

  /** The words that show a parameter's help and ask again. */
  predicate IsHelpWord(a: string) {
    a == "help" || a == "h" || a == "?"
  }

  /** An answer as the yes/no prompts read it: trimmed and lower-cased. */
  function Normalized(answer: string): string {
    Lower(Strip(answer))
  }

  /**
   * `prompt_yes_no_exclude` on one answer: "exclude" for an empty answer
   * or an exclude word, "yes" or "no" for those words, None (ask again)
   * for help words and anything else.
   */
  function YesNoExcludeAnswer(answer: string): (r: Option<string>)
    ensures r.Some? ==> r.value == "yes" || r.value == "no" || r.value == "exclude"
  {
    ExcludeChoice(Normalized(answer))
  }

  /** The yes/no/exclude reading of a trimmed, lower-cased answer. */
  function ExcludeChoice(a: string): (r: Option<string>)
    ensures r.Some? ==> r.value == "yes" || r.value == "no" || r.value == "exclude"
    ensures r == Some("exclude") <==> a == "" || a == "exclude" || a == "e" || a == "x"
    ensures r == Some("yes") <==> a == "yes" || a == "y"
    ensures r == Some("no") <==> a == "no" || a == "n"
  {
    if IsHelpWord(a) then None
    else if a == "" || a == "exclude" || a == "e" || a == "x" then Some("exclude")
    else if a == "yes" || a == "y" then Some("yes")
    else if a == "no" || a == "n" then Some("no")
    else None
  }

  /** `prompt_yes_no` on one answer: the default for an empty answer. */
  function YesNoAnswer(answer: string, default: bool): Option<bool> {
    YesNoChoice(Normalized(answer), default)
  }

  /** The yes/no reading of a trimmed, lower-cased answer. */
  function YesNoChoice(a: string, default: bool): (r: Option<bool>)
    ensures a == "" ==> r == Some(default)
    ensures r == Some(true) <==> a == "yes" || a == "y" || (a == "" && default)
    ensures r == Some(false) <==> a == "no" || a == "n" || (a == "" && !default)
  {
    if IsHelpWord(a) then None
    else if a == "" then Some(default)
    else if a == "yes" || a == "y" then Some(true)
    else if a == "no" || a == "n" then Some(false)
    else None
  }

  /**
   * `prompt_string` on one answer: the trimmed answer, in its own case,
   * unless it is a help word in any case, or it is empty and required.
   */
  function StringAnswer(answer: string, required: bool): (r: Option<string>)
    ensures r.Some? ==> r.value == Strip(answer) && IsStripped(r.value)
    ensures r.Some? ==> !IsHelpWord(Lower(r.value)) && (required ==> r.value != [])
    ensures r.None? <==> IsHelpWord(Lower(Strip(answer))) || (required && Strip(answer) == [])
  {
    var a := Strip(answer);
    if IsHelpWord(Lower(a)) then None
    else if a != "" || !required then Some(a)
    else None
  }

  // ---------------------------------------------------------------------
  // The prompt loops: the first decisive answer wins
  // ---------------------------------------------------------------------

  /**
   * The reading of the first decisive answer, or None when the input ends
   * before one (typing end-of-input at a prompt aborts the script).
   */
  function FirstDecisive<T>(answers: seq<string>, classify: string -> Option<T>): Option<T>
    decreases |answers|
  {
    if answers == [] then None
    else match classify(answers[0])
      case Some(v) => Some(v)
      case None => FirstDecisive(answers[1..], classify)
  }

  /** With no decisive answer the prompt never returns. */
  lemma {:induction false} NoDecisiveAnswer<T>(answers: seq<string>, classify: string -> Option<T>)
    requires forall j :: 0 <= j < |answers| ==> classify(answers[j]).None?
    ensures FirstDecisive(answers, classify).None?
    decreases |answers|
  {
    if answers != [] {
      assert forall j :: 0 <= j < |answers[1..]| ==> answers[1..][j] == answers[j + 1];
      NoDecisiveAnswer(answers[1..], classify);
    }
  }

  /** The prompt returns the reading of the first decisive answer; later answers are never read. */
  lemma {:induction false} FirstDecisiveAnswer<T>(answers: seq<string>, classify: string -> Option<T>, k: nat)
    requires k < |answers| && classify(answers[k]).Some?
    requires forall j :: 0 <= j < k ==> classify(answers[j]).None?
    ensures FirstDecisive(answers, classify) == classify(answers[k])
    decreases k
  {
    if k > 0 {
      assert forall j :: 0 <= j < |answers[1..]| ==> answers[1..][j] == answers[j + 1];
      FirstDecisiveAnswer(answers[1..], classify, k - 1);
    }
  }

  /** Answers after the decisive one are never read: they cannot change the result. */
  lemma {:induction false} LaterAnswersUnread<T>(answers: seq<string>, later: seq<string>, classify: string -> Option<T>)
    requires FirstDecisive(answers, classify).Some?
    ensures FirstDecisive(answers + later, classify) == FirstDecisive(answers, classify)
    decreases |answers|
  {
    if classify(answers[0]).None? {
      assert (answers + later)[1..] == answers[1..] + later;
      LaterAnswersUnread(answers[1..], later, classify);
    }
  }

  /** `prompt_yes_no_exclude` over the lines the user types. */
  method PromptYesNoExclude(answers: seq<string>) returns (r: Option<string>)
    ensures r == FirstDecisive(answers, YesNoExcludeAnswer)
  {
    var i := 0;
    while i < |answers|
      invariant i <= |answers|
      invariant FirstDecisive(answers[i..], YesNoExcludeAnswer) == FirstDecisive(answers, YesNoExcludeAnswer)
    {
      var choice := YesNoExcludeAnswer(answers[i]);
      if choice.Some? {
        return choice;
      }
      assert answers[i..][1..] == answers[i + 1..];
      i := i + 1;
    }
    return None;
  }

  /** `prompt_yes_no` over the lines the user types. */
  method PromptYesNo(answers: seq<string>, default: bool) returns (r: Option<bool>)
    ensures r == FirstDecisive(answers, a => YesNoAnswer(a, default))
  {
    var i := 0;
    while i < |answers|
      invariant i <= |answers|
      invariant FirstDecisive(answers[i..], a => YesNoAnswer(a, default))
             == FirstDecisive(answers, a => YesNoAnswer(a, default))
    {
      var choice := YesNoAnswer(answers[i], default);
      if choice.Some? {
        return choice;
      }
      assert answers[i..][1..] == answers[i + 1..];
      i := i + 1;
    }
    return None;
  }

  /** `prompt_string` over the lines the user types. */
  method PromptString(answers: seq<string>, required: bool) returns (r: Option<string>)
    ensures r == FirstDecisive(answers, a => StringAnswer(a, required))
  {
    var i := 0;
    while i < |answers|
      invariant i <= |answers|
      invariant FirstDecisive(answers[i..], a => StringAnswer(a, required))
             == FirstDecisive(answers, a => StringAnswer(a, required))
    {
      var text := StringAnswer(answers[i], required);
      if text.Some? {
        return text;
      }
      assert answers[i..][1..] == answers[i + 1..];
      i := i + 1;
    }
    return None;
  }

  /** A blank answer takes the default: "exclude", or the yes/no default. */
  lemma BlankAnswerTakesDefault(answer: string, default: bool)
    requires AllSpace(answer)
    ensures YesNoExcludeAnswer(answer) == Some("exclude")
    ensures YesNoAnswer(answer, default) == Some(default)
    ensures StringAnswer(answer, true).None? && StringAnswer(answer, false) == Some("")
  {
    BlankStrips(answer);
  }

  /** Blanks around an answer do not change its trimmed, lower-cased form. */
  lemma PaddedNormalized(pad: string, answer: string, pad2: string)
    requires AllSpace(pad) && AllSpace(pad2)
    ensures Strip(pad + answer + pad2) == Strip(answer)
    ensures Normalized(pad + answer + pad2) == Normalized(answer)
  {
    StripPadding(pad, answer, pad2);
  }

  /** Blanks around an answer do not change how any of the prompts reads it. */
  lemma PaddedAnswer(pad: string, answer: string, pad2: string, default: bool, required: bool)
    requires AllSpace(pad) && AllSpace(pad2)
    ensures YesNoExcludeAnswer(pad + answer + pad2) == YesNoExcludeAnswer(answer)
    ensures YesNoAnswer(pad + answer + pad2, default) == YesNoAnswer(answer, default)
    ensures StringAnswer(pad + answer + pad2, required) == StringAnswer(answer, required)
  {
    PaddedNormalized(pad, answer, pad2);
  }

  /** A word with no blanks around it is read through its lower-case form. */
  lemma TrimmedWord(w: string)
    requires IsStripped(w)
    ensures Normalized(w) == Lower(w)
  {
    StrippedFixed(w);
  }

  /** An upper-case YES is a yes. */
  lemma UpperCaseYes()
    ensures YesNoExcludeAnswer("YES") == Some("yes")
  {
    TrimmedWord("YES");
    assert Lower("YES") == "yes";
  }

  /** An upper-case NO is a no. */
  lemma UpperCaseNo(default: bool)
    ensures YesNoAnswer("NO", default) == Some(false)
  {
    TrimmedWord("NO");
    assert Lower("NO") == "no";
    assert Normalized("NO") == "no";
    assert !IsHelpWord("no") && "no" != "" && "no" != "yes" && "no" != "y";
  }

  /** An upper-case HELP asks again. */
  lemma UpperCaseHelp()
    ensures YesNoExcludeAnswer("HELP").None?
  {
    TrimmedWord("HELP");
    assert Lower("HELP") == "help";
  }

  /** A help word in any case is not taken as a text answer. */
  lemma HelpIsNoText(required: bool)
    ensures StringAnswer("H", required).None?
  {
    StrippedFixed("H");
  }

  // ---------------------------------------------------------------------
  // build_command
  // ---------------------------------------------------------------------

  const Cd: string := "cd ~/cheetah/src/tests"
  const Separator: string := " ; "

  /** A yes/no/exclude parameter: its `=1` form for yes, its `=0` form for no, nothing otherwise. */
  function Setting(onYes: string, onNo: string, answer: string): seq<string> {
    if answer == "yes" then [onYes]
    else if answer == "no" then [onNo]
    else []
  }

  /** The make parameters, in their fixed order. */
  function MakeParams(cheetahHandler: bool, breakOnFail: string, generateConfig: string): seq<string> {
    Setting("BP_ON_FAIL=1", "BP_ON_FAIL=0", breakOnFail)
    + (if cheetahHandler then ["CHEETAH_HANDLER=remote"] else [])
    + Setting("GENERATE_CONFIG=1", "GENERATE_CONFIG=0", generateConfig)
  }

  /** The make segment: the target, then the parameters after one space each. */
  function MakeSegment(testName: string, params: seq<string>): string {
    "make test_wbox." + testName + (if params == [] then "" else " " + Join(" ", params))
  }

  /** The clean-up steps asked for: containers before logs. */
  function ClearSteps(clearLogs: bool, clearContainers: bool): seq<string> {
    (if clearContainers then ["clear_containers"] else [])
    + (if clearLogs then ["clear_logs"] else [])
  }

  /** The segments of the command, in order. */
  function Segments(testName: string, cheetahHandler: bool, breakOnFail: string, generateConfig: string,
                    clearLogs: bool, clearContainers: bool): seq<string>
  {
    [Cd] + ClearSteps(clearLogs, clearContainers)
    + [MakeSegment(testName, MakeParams(cheetahHandler, breakOnFail, generateConfig))]
  }

  /** The parameter appends of `build_command`, in the order it makes them. */
  method CollectMakeParams(cheetahHandler: bool, breakOnFail: string, generateConfig: string)
    returns (makeParams: seq<string>)
    ensures makeParams == MakeParams(cheetahHandler, breakOnFail, generateConfig)
  {
    makeParams := [];
    if breakOnFail == "yes" {
      makeParams := makeParams + ["BP_ON_FAIL=1"];
    } else if breakOnFail == "no" {
      makeParams := makeParams + ["BP_ON_FAIL=0"];
    }
    if cheetahHandler {
      makeParams := makeParams + ["CHEETAH_HANDLER=remote"];
    }
    if generateConfig == "yes" {
      makeParams := makeParams + ["GENERATE_CONFIG=1"];
    } else if generateConfig == "no" {
      makeParams := makeParams + ["GENERATE_CONFIG=0"];
    }
  }

  /** `build_command`: the segments built up by appends and joined with " ; ". */
  method BuildCommand(testName: string, cheetahHandler: bool, breakOnFail: string, generateConfig: string,
                      clearLogs: bool, clearContainers: bool) returns (cmd: string)
    ensures cmd == Join(Separator, Segments(testName, cheetahHandler, breakOnFail, generateConfig, clearLogs, clearContainers))
  {
    var parts := [Cd];
    if clearContainers {
      parts := parts + ["clear_containers"];
    }
    if clearLogs {
      parts := parts + ["clear_logs"];
    }
    assert parts == [Cd] + ClearSteps(clearLogs, clearContainers);
    var makeCmd := "make test_wbox." + testName;
    var makeParams := CollectMakeParams(cheetahHandler, breakOnFail, generateConfig);
    if makeParams != [] {
      makeCmd := makeCmd + (" " + Join(" ", makeParams));
    }
    assert makeCmd == MakeSegment(testName, makeParams);
    parts := parts + [makeCmd];
    cmd := Join(Separator, parts);
  }

  /**
   * The command splits back into its segments on " ; " when the test name
   * has no ';': it starts with the `cd`, the clear steps appear exactly when
   * asked for (containers before logs), and the make segment is last.
   */
  lemma CommandSegments(testName: string, cheetahHandler: bool, breakOnFail: string, generateConfig: string,
                        clearLogs: bool, clearContainers: bool)
    requires Lacks(testName, ';')
    ensures var segs := Segments(testName, cheetahHandler, breakOnFail, generateConfig, clearLogs, clearContainers);
      && Split(Join(Separator, segs), Separator) == segs
      && segs[0] == Cd
      && segs[|segs| - 1] == MakeSegment(testName, MakeParams(cheetahHandler, breakOnFail, generateConfig))
      && |segs| == 2 + (if clearContainers then 1 else 0) + (if clearLogs then 1 else 0)
      && (clearContainers ==> segs[1] == "clear_containers")
      && (clearLogs ==> segs[|segs| - 2] == "clear_logs")
  {
    var segs := Segments(testName, cheetahHandler, breakOnFail, generateConfig, clearLogs, clearContainers);
    SegmentsLackSemicolon(testName, cheetahHandler, breakOnFail, generateConfig, clearLogs, clearContainers);
    SplitJoin(segs, Separator, 1);
  }

  lemma SegmentsLackSemicolon(testName: string, cheetahHandler: bool, breakOnFail: string, generateConfig: string,
                              clearLogs: bool, clearContainers: bool)
    requires Lacks(testName, ';')
    ensures var segs := Segments(testName, cheetahHandler, breakOnFail, generateConfig, clearLogs, clearContainers);
      forall q, j :: 0 <= q < |segs| && 0 <= j < |segs[q]| ==> segs[q][j] != ';'
  {
    var segs := Segments(testName, cheetahHandler, breakOnFail, generateConfig, clearLogs, clearContainers);
    MakeSegmentLacksSemicolon(testName, cheetahHandler, breakOnFail, generateConfig);
    forall q | 0 <= q < |segs|
      ensures Lacks(segs[q], ';')
    {
    }
  }

  lemma MakeSegmentLacksSemicolon(testName: string, cheetahHandler: bool, breakOnFail: string, generateConfig: string)
    requires Lacks(testName, ';')
    ensures Lacks(MakeSegment(testName, MakeParams(cheetahHandler, breakOnFail, generateConfig)), ';')
  {
    var params := MakeParams(cheetahHandler, breakOnFail, generateConfig);
    ParamsLackSemicolon(cheetahHandler, breakOnFail, generateConfig);
    JoinLacks(" ", params, ';');
  }

  lemma ParamsLackSemicolon(cheetahHandler: bool, breakOnFail: string, generateConfig: string)
    ensures forall q :: 0 <= q < |MakeParams(cheetahHandler, breakOnFail, generateConfig)| ==>
      Lacks(MakeParams(cheetahHandler, breakOnFail, generateConfig)[q], ';')
  {
  }

  /** Joining pieces that lack a character, with a separator that lacks it, gives a string lacking it. */
  lemma {:induction false} JoinLacks(sep: string, parts: seq<string>, c: char)
    requires Lacks(sep, c) && forall q :: 0 <= q < |parts| ==> Lacks(parts[q], c)
    ensures Lacks(Join(sep, parts), c)
    decreases |parts|
  {
    if |parts| > 1 {
      JoinLacks(sep, parts[1..], c);
    }
  }

  /**
   * The parameters: BP_ON_FAIL and GENERATE_CONFIG map "yes" to 1 and "no"
   * to 0 and are left out for anything else, "exclude" included; the
   * handler parameter is there exactly when asked for; the order is fixed.
   */
  lemma ParamsInOrder(cheetahHandler: bool, breakOnFail: string, generateConfig: string)
    ensures var p := MakeParams(cheetahHandler, breakOnFail, generateConfig);
      var b := |Setting("BP_ON_FAIL=1", "BP_ON_FAIL=0", breakOnFail)|;
      && |p| == b + (if cheetahHandler then 1 else 0) + |Setting("GENERATE_CONFIG=1", "GENERATE_CONFIG=0", generateConfig)|
      && (breakOnFail == "yes" ==> p[0] == "BP_ON_FAIL=1")
      && (breakOnFail == "no" ==> p[0] == "BP_ON_FAIL=0")
      && (cheetahHandler ==> p[b] == "CHEETAH_HANDLER=remote")
      && (generateConfig == "yes" ==> p[|p| - 1] == "GENERATE_CONFIG=1")
      && (generateConfig == "no" ==> p[|p| - 1] == "GENERATE_CONFIG=0")
  {
  }

  /** Only "yes" and "no" add a setting. */
  lemma SettingOnlyForYesOrNo(onYes: string, onNo: string, answer: string)
    ensures Setting(onYes, onNo, answer) != [] <==> answer == "yes" || answer == "no"
    ensures |Setting(onYes, onNo, answer)| <= 1
  {
  }

  /** With no parameters the make segment is the bare target, with no trailing space. */
  lemma BareMakeSegment(testName: string)
    ensures MakeSegment(testName, MakeParams(false, "exclude", "exclude")) == "make test_wbox." + testName
  {
  }
}
