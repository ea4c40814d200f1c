/** The interactive menu of the sets guide: a trimmed input line selects
    exit, one of ten topics (each a fixed list of demonstration routines) or
    nothing; every routine runs under its own error guard; after a topic the
    program pauses for acknowledgement; an interrupt ends the session.
    Console output is recorded as a trace of events. */
module Menu {
  import opened OrderedDedup

  /** The demonstration routines the menu can run. Their bodies only print
      text and are represented by their outcome (see `Outcome`). */
  datatype Handler =
    | SetCreationExamples
    | SetPropertiesExamples
    | SetOperationsExamples
    | SetComparisonExamples
    | SetMethodsExamples
    | SetCopyExamples
    | SetComprehensionsExamples
    | SetIterationExamples
    | ComparisonExamples
    | AdvancedSetTechniques
    | FrozensetExamples
    | PracticalApplications
    | PerformanceAnalysis

  /** What a trimmed menu selection means. */
  datatype Choice = Exit | Run(handlers: seq<Handler>) | Invalid

  /** How one run of a demonstration routine ends: normally, or with an
      exception whose text is `message`. */
  datatype Outcome = Ok | Err(message: string)

  /** One read from standard input: a line of text, an interrupt from the
      keyboard, or a failure of the read itself (for example end of input). */
  datatype Token = Line(text: string) | Interrupt | ReadFailure(message: string)

  /** Observable console behaviour, one event per message. */
  datatype Event =
    | Welcome                        // the welcome header and introduction
    | ShowMenu                       // the menu box
    | Invoke(handler: Handler)       // a demonstration routine starts
    | HandlerError(message: string)  // "Error running example: <message>"
    | InvalidChoice                  // "Invalid choice. Please enter a number between 0 and 10."
    | PausePrompt                    // "Press Enter to continue to the next section..."
    | Farewell                       // the thank-you message after choice 0
    | Goodbye                        // "Exiting guide. Goodbye!" after an interrupt
    | LoopError(message: string)     // "An error occurred: <message>" and "Please try again."

  /** States of the dispatch loop. `Paused` means the continue prompt has
      been shown and the acknowledgement line has not yet been read. */
  datatype Phase = AwaitingChoice | Paused | Terminated

  datatype Progress = Progress(phase: Phase, trace: seq<Event>)

  // ---------------------------------------------------------------------
  // Trimming the input line

  /** The characters that the source's string trimming treats as white space. */
  predicate IsSpace(c: char) {
    || '\t' <= c <= '\r'
    || '\U{1C}' <= c <= ' '
    || c == '\U{85}' || c == '\U{A0}' || c == '\U{1680}'
    || '\U{2000}' <= c <= '\U{200A}'
    || c == '\U{2028}' || c == '\U{2029}' || c == '\U{202F}' || c == '\U{205F}'
    || c == '\U{3000}'
  }

  /** Drops the leading white space. */
  function StripLeading(s: string): string {
    if s != [] && IsSpace(s[0]) then StripLeading(s[1..]) else s
  }

  /** Drops the trailing white space. */
  function StripTrailing(s: string): string {
    if s != [] && IsSpace(s[|s| - 1]) then StripTrailing(s[..|s| - 1]) else s
  }

  /** The line with white space removed from both ends (the source trims
      every selection before comparing it). */
  function Strip(s: string): string {
    StripTrailing(StripLeading(s))
  }

  /** What leading trimming leaves is a suffix of `s` that does not start
      with white space, and everything it drops is white space. */
  lemma {:induction false} StripLeadingShape(s: string)
    ensures var r := StripLeading(s);
      && |r| <= |s| && r == s[|s| - |r|..]
      && (forall k :: 0 <= k < |s| - |r| ==> IsSpace(s[k]))
      && (r == [] || !IsSpace(r[0]))
  {
    if s != [] && IsSpace(s[0]) {
      StripLeadingShape(s[1..]);
      var r := StripLeading(s);
      assert s[1..][|s| - 1 - |r|..] == s[|s| - |r|..];
      forall k | 1 <= k < |s| - |r|
        ensures IsSpace(s[k])
      {
        assert s[k] == s[1..][k - 1];
      }
    }
  }

  /** What trailing trimming leaves is a prefix of `s` that does not end
      with white space, and everything it drops is white space. */
  lemma {:induction false} StripTrailingShape(s: string)
    ensures var r := StripTrailing(s);
      && |r| <= |s| && r == s[..|r|]
      && (forall k :: |r| <= k < |s| ==> IsSpace(s[k]))
      && (r == [] || !IsSpace(r[|r| - 1]))
  {
    if s != [] && IsSpace(s[|s| - 1]) {
      var p := s[..|s| - 1];
      StripTrailingShape(p);
      var r := StripTrailing(s);
      assert p[..|r|] == s[..|r|];
      forall k | |r| <= k < |s| - 1
        ensures IsSpace(s[k])
      {
        assert s[k] == p[k];
      }
    }
  }

  /** The trimmed line is no longer than the line and has no white space at
      either end. */
  lemma StripShape(s: string)
    ensures var r := Strip(s);
      |r| <= |s| && (r == [] || (!IsSpace(r[0]) && !IsSpace(r[|r| - 1])))
  {
    var t := StripLeading(s);
    StripLeadingShape(s);
    StripTrailingShape(t);
    var r := StripTrailing(t);
    assert r != [] ==> r[0] == t[0];
  }

  /** `s` is white space, then `core` (starting at position i), then white space. */
  predicate SurroundedBySpace(s: string, core: string, i: nat) {
    && i + |core| <= |s|
    && core == s[i..i + |core|]
    && (forall k :: 0 <= k < i ==> IsSpace(s[k]))
    && (forall k :: i + |core| <= k < |s| ==> IsSpace(s[k]))
  }

  /** The trimmed line is a slice of the line with only white space around it. */
  lemma StripIsSurrounded(s: string)
    ensures exists i :: SurroundedBySpace(s, Strip(s), i)
  {
    var t := StripLeading(s);
    StripLeadingShape(s);
    StripTrailingShape(t);
    var r := StripTrailing(t);
    var i := |s| - |t|;
    assert r == s[i..i + |r|];
    forall k | i + |r| <= k < |s|
      ensures IsSpace(s[k])
    {
      assert s[k] == t[k - i];
    }
    assert Strip(s) == r;
    assert SurroundedBySpace(s, r, i);
  }

  /** Trimming is determined by the white space at the two ends: whenever
      `s` is white space, then a core that neither starts nor ends with white
      space, then white space, the trimmed line is that core. */
  lemma StripUnique(s: string, i: nat, j: nat)
    requires i <= j <= |s|
    requires forall k :: 0 <= k < i ==> IsSpace(s[k])
    requires forall k :: j <= k < |s| ==> IsSpace(s[k])
    requires i == j || (!IsSpace(s[i]) && !IsSpace(s[j - 1]))
    ensures Strip(s) == s[i..j]
  {
    if i < j {
      StripAroundCore(s, i, j);
    } else {
      StripAllSpace(s);
    }
  }

  /** A line of white space only trims to the empty line. */
  lemma {:induction false} StripAllSpace(s: string)
    requires forall k :: 0 <= k < |s| ==> IsSpace(s[k])
    ensures StripLeading(s) == [] && Strip(s) == []
  {
    if s != [] {
      StripAllSpace(s[1..]);
    }
  }

  /** The non-empty case of `StripUnique`. */
  lemma StripAroundCore(s: string, i: nat, j: nat)
    requires i < j <= |s|
    requires forall k :: 0 <= k < i ==> IsSpace(s[k])
    requires forall k :: j <= k < |s| ==> IsSpace(s[k])
    requires !IsSpace(s[i]) && !IsSpace(s[j - 1])
    ensures Strip(s) == s[i..j]
  {
    StripLeadingOf(s, i);
    StripTrailingOfSuffix(s, i, j);
    assert Strip(s) == StripTrailing(s[i..]);
  }

  /** Leading trimming of `s` stops at position i when s[..i] is white space
      and s[i] is not. */
  lemma {:induction false} StripLeadingOf(s: string, i: nat)
    requires i < |s|
    requires forall k :: 0 <= k < i ==> IsSpace(s[k])
    requires !IsSpace(s[i])
    ensures StripLeading(s) == s[i..]
  {
    if i > 0 {
      StripLeadingOf(s[1..], i - 1);
      assert s[1..][i - 1..] == s[i..];
    }
  }

  /** Trailing trimming of the suffix s[i..] stops at position j when
      s[j..] is white space and s[j-1] is not. */
  lemma {:induction false} StripTrailingOfSuffix(s: string, i: nat, j: nat)
    requires i < j <= |s|
    requires forall k :: j <= k < |s| ==> IsSpace(s[k])
    requires !IsSpace(s[j - 1])
    ensures StripTrailing(s[i..]) == s[i..j]
    decreases |s|
  {
    var u := s[i..];
    if j == |s| {
      assert u[|u| - 1] == s[j - 1];
      assert u == s[i..j];
    } else {
      var p := s[..|s| - 1];
      assert u[|u| - 1] == s[|s| - 1];
      assert u[..|u| - 1] == p[i..];
      StripTrailingOfSuffix(p, i, j);
      assert p[i..j] == s[i..j];
    }
  }

  // ---------------------------------------------------------------------
  // The menu: selection to demonstration routines

  /** The selections that name a topic. */
  const TopicKeys: set<string> := {"1", "2", "3", "4", "5", "6", "7", "8", "9", "10"}

  /** The if/elif chain of the menu over the trimmed selection: "0" exits,
      "1" to "10" run their routines in the listed order, anything else
      (including "01", "+1", "11" or "") is invalid. */
  function Classify(choice: string): (c: Choice)
    ensures c == Exit <==> choice == "0"
    ensures c.Run? <==> choice in TopicKeys
    ensures c.Invalid? <==> choice != "0" && choice !in TopicKeys
    ensures c.Run? ==> |c.handlers| == (if choice in {"1", "2", "3"} then 2 else 1)
    ensures c.Run? ==> NoDup(c.handlers)
  {
    if choice == "0" then Exit
    else if choice == "1" then Run([SetCreationExamples, SetPropertiesExamples])
    else if choice == "2" then Run([SetOperationsExamples, SetComparisonExamples])
    else if choice == "3" then Run([SetMethodsExamples, SetCopyExamples])
    else if choice == "4" then Run([SetComprehensionsExamples])
    else if choice == "5" then Run([SetIterationExamples])
    else if choice == "6" then Run([ComparisonExamples])
    else if choice == "7" then Run([AdvancedSetTechniques])
    else if choice == "8" then Run([FrozensetExamples])
    else if choice == "9" then Run([PracticalApplications])
    else if choice == "10" then Run([PerformanceAnalysis])
    else Invalid
  }

  /** The topic under which a routine is listed: every routine is reachable
      from the menu. */
  function TopicOf(h: Handler): (key: string)
    ensures key in TopicKeys && h in Classify(key).handlers
  {
    match h
    case SetCreationExamples | SetPropertiesExamples => "1"
    case SetOperationsExamples | SetComparisonExamples => "2"
    case SetMethodsExamples | SetCopyExamples => "3"
    case SetComprehensionsExamples => "4"
    case SetIterationExamples => "5"
    case ComparisonExamples => "6"
    case AdvancedSetTechniques => "7"
    case FrozensetExamples => "8"
    case PracticalApplications => "9"
    case PerformanceAnalysis => "10"
  }

  /** No routine is listed under two topics: `TopicOf` is the only topic
      that runs `h`. */
  lemma TopicsAreDisjoint(key: string, h: Handler)
    requires key in TopicKeys && h in Classify(key).handlers
    ensures key == TopicOf(h)
  {
  }

  // ---------------------------------------------------------------------
  // Observations on a trace

  /** The routines started in a trace, in order. */
  function Invocations(trace: seq<Event>): seq<Handler> {
    if trace == [] then []
    else if trace[0].Invoke? then [trace[0].handler] + Invocations(trace[1..])
    else Invocations(trace[1..])
  }

  /** The messages of the "Error running example" reports in a trace, in order. */
  function ErrorReports(trace: seq<Event>): seq<string> {
    if trace == [] then []
    else if trace[0].HandlerError? then [trace[0].message] + ErrorReports(trace[1..])
    else ErrorReports(trace[1..])
  }

  /** How often `e` occurs in a trace. */
  function Count(trace: seq<Event>, e: Event): nat {
    if trace == [] then 0
    else (if trace[0] == e then 1 else 0) + Count(trace[1..], e)
  }

  lemma {:induction false} InvocationsAppend(a: seq<Event>, b: seq<Event>)
    ensures Invocations(a + b) == Invocations(a) + Invocations(b)
  {
    if a == [] {
      assert a + b == b;
    } else {
      InvocationsAppend(a[1..], b);
      assert (a + b)[1..] == a[1..] + b;
    }
  }

  lemma {:induction false} ErrorReportsAppend(a: seq<Event>, b: seq<Event>)
    ensures ErrorReports(a + b) == ErrorReports(a) + ErrorReports(b)
  {
    if a == [] {
      assert a + b == b;
    } else {
      ErrorReportsAppend(a[1..], b);
      assert (a + b)[1..] == a[1..] + b;
    }
  }

  lemma {:induction false} CountAppend(a: seq<Event>, b: seq<Event>, e: Event)
    ensures Count(a + b, e) == Count(a, e) + Count(b, e)
  {
    if a == [] {
      assert a + b == b;
    } else {
      CountAppend(a[1..], b, e);
      assert (a + b)[1..] == a[1..] + b;
    }
  }

  /** An event that does not occur is counted zero times. */
  lemma {:induction false} CountAbsent(trace: seq<Event>, e: Event)
    requires e !in trace
    ensures Count(trace, e) == 0
  {
    if trace != [] {
      assert forall x :: x in trace[1..] ==> x in trace;
      CountAbsent(trace[1..], e);
    }
  }

  /** Is this the last message of a session? */
  predicate IsFinal(e: Event) {
    e.Farewell? || e.Goodbye?
  }

  /** A final message, if any, is the last event, and it is there exactly
      when the loop has stopped. */
  predicate StopsWithFinalMessage(p: Progress) {
    && (p.phase == Terminated <==> p.trace != [] && IsFinal(p.trace[|p.trace| - 1]))
    && (forall k :: 0 <= k < |p.trace| - 1 ==> !IsFinal(p.trace[k]))
  }

  // ---------------------------------------------------------------------
  // Running the routines of one topic

  /** One guarded call of a routine. */
  function RunExample(h: Handler, o: Outcome): seq<Event> {
    match o
    case Ok => [Invoke(h)]
    case Err(m) => [Invoke(h), HandlerError(m)]
  }

  /** The routine starts and, if it fails, exactly one error report with its
      message follows; the failure is not passed on to the caller. */
  lemma RunExampleGuarded(h: Handler, o: Outcome)
    ensures Invocations(RunExample(h, o)) == [h]
    ensures ErrorReports(RunExample(h, o)) == if o.Err? then [o.message] else []
    ensures RunExample(h, o)[0] == Invoke(h)
    ensures forall e :: e in RunExample(h, o) ==> e.Invoke? || e.HandlerError?
  {
    match o
    case Ok =>
      assert [Invoke(h)][1..] == [];
    case Err(m) =>
      var trace := [Invoke(h), HandlerError(m)];
      assert trace[1..] == [HandlerError(m)];
      assert [HandlerError(m)][1..] == [];
      assert Invocations(trace) == [h] + Invocations([HandlerError(m)]);
      assert ErrorReports(trace) == ErrorReports([HandlerError(m)]);
  }

  /** The messages of the routines of `hs` that fail, in order. */
  function FailureMessages(hs: seq<Handler>, outcome: Handler -> Outcome): seq<string> {
    if hs == [] then []
    else if outcome(hs[0]).Err? then [outcome(hs[0]).message] + FailureMessages(hs[1..], outcome)
    else FailureMessages(hs[1..], outcome)
  }

  /** The guarded calls of a topic's routines, one after the other. */
  function RunAll(hs: seq<Handler>, outcome: Handler -> Outcome): seq<Event> {
    if hs == [] then []
    else RunExample(hs[0], outcome(hs[0])) + RunAll(hs[1..], outcome)
  }

  /** Every routine of the topic runs, in the listed order, whatever the
      outcomes of the earlier ones; there is one error report per failing
      routine; nothing but starts and error reports is printed. */
  lemma {:induction false} RunAllRunsEveryRoutine(hs: seq<Handler>, outcome: Handler -> Outcome)
    ensures Invocations(RunAll(hs, outcome)) == hs
    ensures ErrorReports(RunAll(hs, outcome)) == FailureMessages(hs, outcome)
    ensures forall e :: e in RunAll(hs, outcome) ==> e.Invoke? || e.HandlerError?
  {
    if hs != [] {
      var first := RunExample(hs[0], outcome(hs[0]));
      var rest := RunAll(hs[1..], outcome);
      RunExampleGuarded(hs[0], outcome(hs[0]));
      RunAllRunsEveryRoutine(hs[1..], outcome);
      InvocationsAppend(first, rest);
      ErrorReportsAppend(first, rest);
      assert hs == [hs[0]] + hs[1..];
    }
  }

  /** Each error report comes right after the start of the routine that
      failed, and carries that routine's message. */
  lemma {:induction false} ErrorReportFollowsItsRoutine(hs: seq<Handler>, outcome: Handler -> Outcome, k: nat)
    requires k < |RunAll(hs, outcome)| && RunAll(hs, outcome)[k].HandlerError?
    ensures var trace := RunAll(hs, outcome);
      k > 0 && trace[k - 1].Invoke? && outcome(trace[k - 1].handler) == Err(trace[k].message)
  {
    var first := RunExample(hs[0], outcome(hs[0]));
    var rest := RunAll(hs[1..], outcome);
    assert RunAll(hs, outcome) == first + rest;
    if k >= |first| {
      ErrorReportFollowsItsRoutine(hs[1..], outcome, k - |first|);
    }
  }

  /** A valid topic: its routines, then the continue prompt. */
  function RunTopic(hs: seq<Handler>, outcome: Handler -> Outcome): seq<Event> {
    RunAll(hs, outcome) + [PausePrompt]
  }

  // ---------------------------------------------------------------------
  // The dispatch loop

  /** What follows a trimmed selection at the menu. */
  function Dispatch(c: Choice, outcome: Handler -> Outcome): Progress {
    match c
    case Exit => Progress(Terminated, [Farewell])
    case Invalid => Progress(AwaitingChoice, [InvalidChoice])
    case Run(hs) => Progress(Paused, RunTopic(hs, outcome))
  }

  /** "0" says farewell and stops the loop with no routine and no pause; an
      invalid selection gives exactly one message and returns to the menu
      without a pause; a topic runs its routines, reports each failure once
      and pauses exactly once, whatever the outcomes. */
  lemma DispatchOutcome(c: Choice, outcome: Handler -> Outcome)
    ensures var p := Dispatch(c, outcome);
      && StopsWithFinalMessage(p)
      && (p.phase == Terminated <==> c == Exit)
      && (p.phase == Paused <==> c.Run?)
      && Count(p.trace, PausePrompt) == (if c.Run? then 1 else 0)
      && Count(p.trace, InvalidChoice) == (if c.Invalid? then 1 else 0)
      && Invocations(p.trace) == (if c.Run? then c.handlers else [])
      && ErrorReports(p.trace) == (if c.Run? then FailureMessages(c.handlers, outcome) else [])
      && (c.Run? ==> p.trace[|p.trace| - 1] == PausePrompt)
  {
    if c.Run? {
      RunTopicShape(c.handlers, outcome);
    }
  }

  /** A topic runs every routine and pauses exactly once, as its last event;
      it prints no invalid-choice message and no final message. */
  lemma RunTopicShape(hs: seq<Handler>, outcome: Handler -> Outcome)
    ensures var trace := RunTopic(hs, outcome);
      && Invocations(trace) == hs
      && ErrorReports(trace) == FailureMessages(hs, outcome)
      && Count(trace, PausePrompt) == 1
      && Count(trace, InvalidChoice) == 0
      && trace[|trace| - 1] == PausePrompt
      && forall k :: 0 <= k < |trace| ==> !IsFinal(trace[k])
  {
    var run := RunAll(hs, outcome);
    RunAllRunsEveryRoutine(hs, outcome);
    InvocationsAppend(run, [PausePrompt]);
    ErrorReportsAppend(run, [PausePrompt]);
    CountAppend(run, [PausePrompt], PausePrompt);
    CountAppend(run, [PausePrompt], InvalidChoice);
    CountAbsent(run, PausePrompt);
    CountAbsent(run, InvalidChoice);
    var trace := run + [PausePrompt];
    assert forall k :: 0 <= k < |run| ==> trace[k] == run[k] && run[k] in run;
  }

  /** Reading a selection at the menu (the menu is shown first). */
  function ReadChoice(token: Token, outcome: Handler -> Outcome): Progress {
    match token
    case Interrupt => Progress(Terminated, [ShowMenu, Goodbye])
    case ReadFailure(m) => Progress(AwaitingChoice, [ShowMenu, LoopError(m)])
    case Line(text) =>
      var d := Dispatch(Classify(Strip(text)), outcome);
      Progress(d.phase, [ShowMenu] + d.trace)
  }

  /** Reading the acknowledgement of a pause. */
  function Acknowledge(token: Token): Progress {
    match token
    case Line(_) => Progress(AwaitingChoice, [])
    case Interrupt => Progress(Terminated, [Goodbye])
    case ReadFailure(m) => Progress(AwaitingChoice, [LoopError(m)])
  }

  /** One turn of the loop. */
  function Step(phase: Phase, token: Token, outcome: Handler -> Outcome): Progress
    requires phase != Terminated
  {
    match phase
    case Paused => Acknowledge(token)
    case AwaitingChoice => ReadChoice(token, outcome)
  }

  /** Showing the menu first keeps the final message, if any, last. */
  lemma AfterMenu(d: Progress)
    requires StopsWithFinalMessage(d)
    ensures StopsWithFinalMessage(Progress(d.phase, [ShowMenu] + d.trace))
    ensures d.trace != [] ==> ([ShowMenu] + d.trace)[|d.trace|] == d.trace[|d.trace| - 1]
  {
    var trace := [ShowMenu] + d.trace;
    assert forall k :: 1 <= k < |trace| ==> trace[k] == d.trace[k - 1];
  }

  /** Every turn keeps a final message last; a continue prompt is printed
      exactly when the turn ends in the paused state, which only a topic
      selected at the menu reaches, and the prompt is then the last event;
      an acknowledgement never runs a routine. */
  lemma StepShape(phase: Phase, token: Token, outcome: Handler -> Outcome)
    requires phase != Terminated
    ensures var p := Step(phase, token, outcome);
      && StopsWithFinalMessage(p)
      && Count(p.trace, PausePrompt) == (if p.phase == Paused then 1 else 0)
      && (p.phase == Paused ==> phase == AwaitingChoice && p.trace[|p.trace| - 1] == PausePrompt)
      && (phase == Paused ==> p.phase != Paused && Invocations(p.trace) == [])
  {
    if phase == AwaitingChoice && token.Line? {
      var d := Dispatch(Classify(Strip(token.text)), outcome);
      DispatchOutcome(Classify(Strip(token.text)), outcome);
      AfterMenu(d);
      CountAppend([ShowMenu], d.trace, PausePrompt);
    }
  }

  // ---------------------------------------------------------------------
  // A whole session

  /** The welcome header followed by the turns of the loop over the inputs
      read so far; once the loop has stopped, further input is not read. */
  function Session(input: seq<Token>, outcome: Handler -> Outcome): Progress {
    if input == [] then Progress(AwaitingChoice, [Welcome])
    else
      var before := Session(input[..|input| - 1], outcome);
      if before.phase == Terminated then before
      else
        var step := Step(before.phase, input[|input| - 1], outcome);
        Progress(step.phase, before.trace + step.trace)
  }

  /** Appending the events of one more turn to a session that has not
      stopped keeps the final message, if any, last. */
  lemma AfterTurn(before: Progress, step: Progress)
    requires before.phase != Terminated && before.trace != []
    requires StopsWithFinalMessage(before) && StopsWithFinalMessage(step)
    ensures StopsWithFinalMessage(Progress(step.phase, before.trace + step.trace))
    ensures step.trace != [] ==>
      (before.trace + step.trace)[|before.trace + step.trace| - 1] == step.trace[|step.trace| - 1]
  {
    var trace := before.trace + step.trace;
    assert forall k :: |before.trace| <= k < |trace| ==> trace[k] == step.trace[k - |before.trace|];
  }

  /** Every session starts with the welcome header; the farewell or goodbye
      message is printed at most once, as the very last event, and exactly
      when the loop has stopped; while paused, the continue prompt is the
      last thing printed. */
  lemma {:induction false} SessionShape(input: seq<Token>, outcome: Handler -> Outcome)
    ensures var p := Session(input, outcome);
      && p.trace != [] && p.trace[0] == Welcome
      && StopsWithFinalMessage(p)
      && (p.phase == Paused ==> p.trace[|p.trace| - 1] == PausePrompt)
  {
    if input != [] {
      var before := Session(input[..|input| - 1], outcome);
      SessionShape(input[..|input| - 1], outcome);
      if before.phase != Terminated {
        var step := Step(before.phase, input[|input| - 1], outcome);
        StepShape(before.phase, input[|input| - 1], outcome);
        AfterTurn(before, step);
      }
    }
  }

  /** The session after one more input. */
  lemma SessionSnoc(input: seq<Token>, token: Token, outcome: Handler -> Outcome)
    ensures var before := Session(input, outcome);
      Session(input + [token], outcome) ==
        if before.phase == Terminated then before
        else
          var step := Step(before.phase, token, outcome);
          Progress(step.phase, before.trace + step.trace)
  {
    assert (input + [token])[..|input|] == input;
  }

  /** The interactive loop: reads one input per turn until the loop stops or
      the input is used up; returns the console trace, the final state and
      the number of inputs read. */
  method RunGuide(input: seq<Token>, outcome: Handler -> Outcome)
    returns (trace: seq<Event>, phase: Phase, consumed: nat)
    ensures consumed <= |input|
    ensures Progress(phase, trace) == Session(input[..consumed], outcome)
    ensures Progress(phase, trace) == Session(input, outcome)
    ensures consumed < |input| ==> phase == Terminated
    ensures phase == Terminated ==>
      0 < consumed && Session(input[..consumed - 1], outcome).phase != Terminated
  {
    trace, phase, consumed := [Welcome], AwaitingChoice, 0;
    while consumed < |input| && phase != Terminated
      invariant consumed <= |input|
      invariant Progress(phase, trace) == Session(input[..consumed], outcome)
      invariant phase == Terminated ==>
        0 < consumed && Session(input[..consumed - 1], outcome).phase != Terminated
    {
      var step := Step(phase, input[consumed], outcome);
      assert input[..consumed + 1][..consumed] == input[..consumed];
      trace := trace + step.trace;
      phase := step.phase;
      consumed := consumed + 1;
    }
    if phase == Terminated {
      SessionStopped(input[..consumed], input[consumed..], outcome);
      assert input[..consumed] + input[consumed..] == input;
    } else {
      assert input[..consumed] == input;
    }
  }

  /** Nothing is read and nothing is printed after the loop has stopped. */
  lemma {:induction false} SessionStopped(input: seq<Token>, more: seq<Token>, outcome: Handler -> Outcome)
    requires Session(input, outcome).phase == Terminated
    ensures Session(input + more, outcome) == Session(input, outcome)
    decreases |more|
  {
    if more == [] {
      assert input + more == input;
    } else {
      var shorter := more[..|more| - 1];
      SessionStopped(input, shorter, outcome);
      assert (input + more)[..|input + more| - 1] == input + shorter;
    }
  }

  /** `n` copies of a token. */
  function Repeat(token: Token, n: nat): (r: seq<Token>)
    ensures |r| == n && forall k :: 0 <= k < n ==> r[k] == token
  {
    if n == 0 then [] else Repeat(token, n - 1) + [token]
  }

  /** A failed read is reported with its message and the menu comes back;
      at the menu prompt the menu has been shown first. */
  lemma ReadFailureKeepsGoing(input: seq<Token>, m: string, outcome: Handler -> Outcome)
    requires Session(input, outcome).phase != Terminated
    ensures var before := Session(input, outcome);
      Session(input + [ReadFailure(m)], outcome) ==
        Progress(AwaitingChoice, before.trace
          + (if before.phase == AwaitingChoice then [ShowMenu, LoopError(m)] else [LoopError(m)]))
  {
    SessionSnoc(input, ReadFailure(m), outcome);
  }

  /** A read that keeps failing (such as end of input) never ends the
      session: each failure is reported and the menu comes back. */
  lemma {:induction false} ReadFailuresNeverStop(
    input: seq<Token>, m: string, n: nat, outcome: Handler -> Outcome)
    requires Session(input, outcome).phase != Terminated
    ensures var p := Session(input + Repeat(ReadFailure(m), n), outcome);
      p.phase != Terminated && (n > 0 ==> p.phase == AwaitingChoice)
  {
    var all := input + Repeat(ReadFailure(m), n);
    if n == 0 {
      assert all == input;
    } else {
      var fewer := input + Repeat(ReadFailure(m), n - 1);
      ReadFailuresNeverStop(input, m, n - 1, outcome);
      assert all == fewer + [ReadFailure(m)];
      ReadFailureKeepsGoing(fewer, m, outcome);
    }
  }

  // ---------------------------------------------------------------------
  // One more input, by kind

  /** Selection "0" (after trimming) at the menu: farewell, the loop stops,
      no routine runs and no pause follows. */
  lemma SelectExit(input: seq<Token>, text: string, outcome: Handler -> Outcome)
    requires Session(input, outcome).phase == AwaitingChoice
    requires Strip(text) == "0"
    ensures Session(input + [Line(text)], outcome) ==
      Progress(Terminated, Session(input, outcome).trace + [ShowMenu, Farewell])
  {
    SessionSnoc(input, Line(text), outcome);
  }

  /** An invalid selection at the menu: one invalid-choice message, no
      routine, no pause, and the menu comes back. */
  lemma SelectInvalid(input: seq<Token>, text: string, outcome: Handler -> Outcome)
    requires Session(input, outcome).phase == AwaitingChoice
    requires Classify(Strip(text)) == Invalid
    ensures Session(input + [Line(text)], outcome) ==
      Progress(AwaitingChoice, Session(input, outcome).trace + [ShowMenu, InvalidChoice])
  {
    SessionSnoc(input, Line(text), outcome);
  }

  /** A topic selected at the menu: its routines run, then the pause. */
  lemma SelectTopic(input: seq<Token>, text: string, outcome: Handler -> Outcome)
    requires Session(input, outcome).phase == AwaitingChoice
    requires Classify(Strip(text)).Run?
    ensures Session(input + [Line(text)], outcome) ==
      Progress(Paused, Session(input, outcome).trace + [ShowMenu]
        + RunAll(Classify(Strip(text)).handlers, outcome) + [PausePrompt])
  {
    var before := Session(input, outcome).trace;
    var run := RunAll(Classify(Strip(text)).handlers, outcome);
    SessionSnoc(input, Line(text), outcome);
    assert Step(AwaitingChoice, Line(text), outcome) ==
      Progress(Paused, [ShowMenu] + (run + [PausePrompt]));
    assert before + ([ShowMenu] + (run + [PausePrompt])) == before + [ShowMenu] + run + [PausePrompt];
  }

  /** Any line acknowledges a pause and brings the menu back, printing nothing. */
  lemma AcknowledgePause(input: seq<Token>, text: string, outcome: Handler -> Outcome)
    requires Session(input, outcome).phase == Paused
    ensures Session(input + [Line(text)], outcome) ==
      Progress(AwaitingChoice, Session(input, outcome).trace)
  {
    SessionSnoc(input, Line(text), outcome);
  }

  /** An interrupt at either prompt says goodbye and stops the loop. */
  lemma InterruptStops(input: seq<Token>, outcome: Handler -> Outcome)
    requires Session(input, outcome).phase != Terminated
    ensures var before := Session(input, outcome);
      Session(input + [Interrupt], outcome) ==
        Progress(Terminated, before.trace
          + (if before.phase == AwaitingChoice then [ShowMenu, Goodbye] else [Goodbye]))
  {
    SessionSnoc(input, Interrupt, outcome);
  }

  // ---------------------------------------------------------------------
  // Sample sessions

  /** Topic 1 as the first selection: both of its routines run, in order,
      then the continue prompt. */
  lemma TopicOneRuns(one: string, outcome: Handler -> Outcome)
    requires Strip(one) == "1"
    requires outcome(SetCreationExamples) == Ok && outcome(SetPropertiesExamples) == Ok
    ensures Session([Line(one)], outcome) ==
      Progress(Paused,
        [Welcome, ShowMenu, Invoke(SetCreationExamples), Invoke(SetPropertiesExamples), PausePrompt])
  {
    var topic := [SetCreationExamples, SetPropertiesExamples];
    assert Classify("1") == Run(topic);
    assert RunAll(topic, outcome) == [Invoke(SetCreationExamples), Invoke(SetPropertiesExamples)] by {
      assert topic[1..][1..] == [];
    }
    SelectTopic([], one, outcome);
    assert [] + [Line(one)] == [Line(one)];
  }

  /** Topic 1, any acknowledgement, then exit: both routines of topic 1
      run, one pause, then the farewell, and the loop stops. */
  lemma TopicThenExit(one: string, ack: string, zero: string, outcome: Handler -> Outcome)
    requires Strip(one) == "1" && Strip(zero) == "0"
    requires outcome(SetCreationExamples) == Ok && outcome(SetPropertiesExamples) == Ok
    ensures Session([Line(one)] + [Line(ack)] + [Line(zero)], outcome) ==
      Progress(Terminated,
        [Welcome, ShowMenu, Invoke(SetCreationExamples), Invoke(SetPropertiesExamples),
         PausePrompt, ShowMenu, Farewell])
  {
    TopicOneRuns(one, outcome);
    AcknowledgePause([Line(one)], ack, outcome);
    SelectExit([Line(one)] + [Line(ack)], zero, outcome);
  }

  /** A selection out of range, then exit: exactly one invalid-choice
      message, no routine, no pause. */
  lemma InvalidThenExit(bad: string, zero: string, outcome: Handler -> Outcome)
    requires Classify(Strip(bad)) == Invalid && Strip(zero) == "0"
    ensures Session([Line(bad)] + [Line(zero)], outcome) ==
      Progress(Terminated, [Welcome, ShowMenu, InvalidChoice, ShowMenu, Farewell])
  {
    var first := [Line(bad)];
    SelectInvalid([], bad, outcome);
    assert [] + [Line(bad)] == first;
    assert Session(first, outcome) == Progress(AwaitingChoice, [Welcome, ShowMenu, InvalidChoice]);
    SelectExit(first, zero, outcome);
    assert [Line(bad)] + [Line(zero)] == first + [Line(zero)];
    assert [Welcome, ShowMenu, InvalidChoice] + [ShowMenu, Farewell] ==
      [Welcome, ShowMenu, InvalidChoice, ShowMenu, Farewell];
  }

  /** "99", "11", "-1", "abc" and "01" are invalid selections. */
  lemma SampleInvalidSelections()
    ensures Classify("99") == Invalid && Classify("11") == Invalid && Classify("-1") == Invalid
    ensures Classify("abc") == Invalid && Classify("01") == Invalid
  {
  }

  /** A failing routine is reported and the next routine of the same topic
      still runs; the pause follows. */
  lemma FailureDoesNotStopTopic(two: string, m: string, outcome: Handler -> Outcome)
    requires Strip(two) == "2"
    requires outcome(SetOperationsExamples) == Err(m) && outcome(SetComparisonExamples) == Ok
    ensures Session([Line(two)], outcome) ==
      Progress(Paused,
        [Welcome, ShowMenu, Invoke(SetOperationsExamples), HandlerError(m),
         Invoke(SetComparisonExamples), PausePrompt])
  {
    var topic := [SetOperationsExamples, SetComparisonExamples];
    assert Classify("2") == Run(topic);
    assert RunAll(topic, outcome) ==
      [Invoke(SetOperationsExamples), HandlerError(m), Invoke(SetComparisonExamples)] by {
      assert topic[1..][1..] == [];
    }
    SelectTopic([], two, outcome);
    assert [] + [Line(two)] == [Line(two)];
  }
}
