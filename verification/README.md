# Python sets guide: ordered de-duplication and the interactive menu

This project models two parts of the command-line Python sets guide
(`Sets/CommandLine/python_sets_complete_guide.py`):

- **`remove_duplicates_ordered`** (`OrderedDedup`, `dedup.dfy`). The routine
  walks a sequence once, with a `seen` set and a `result` list. It appends an
  item only on its first occurrence. It is modelled as the loop method
  `RemoveDuplicatesOrdered`, proved equal to the specification function
  `Dedup`. The lemmas about `Dedup` state what the routine promises:
  - no duplicates;
  - the same elements as the input;
  - a subsequence of the input;
  - elements kept in the order of their first occurrences;
  - idempotence;
  - an input without duplicates is returned unchanged.
- **The menu loop of `main` with the `run_example` guard** (`Menu`, `menu.dfy`).
  - Console output is a trace of `Event`s.
  - Standard input is a sequence of `Token`s: a line, a keyboard interrupt,
    or a failed read.
  - How each demonstration routine ends (normally, or with an exception and
    its message) is a parameter `outcome`.
  - One turn of the loop is the function `Step`, over the states
    `AwaitingChoice`, `Paused` and `Terminated`.
  - A whole session is `Session`, the turns folded over the inputs.
  - `RunGuide` is the loop itself, proved to compute `Session`.
  - The selection is trimmed the way Python's `str.strip()` trims: the
    white space set is written out in `IsSpace`. It is then classified by
    `Classify`, the if/elif chain of the menu.

## Model

| member | source | states |
|---|---|---|
| OrderedDedup.Dedup | Sets/CommandLine/python_sets_complete_guide.py:564-571 | the routine as a function: the input read item by item, an item kept only when it has not been kept before; its properties are the `Dedup…` lemmas below |
| OrderedDedup.RemoveDuplicatesOrdered | Sets/CommandLine/python_sets_complete_guide.py:564-571 | the loop with its `seen` set returns `Dedup(s)`: a list with no repeated item, the same elements as the input, and no longer than the input; its invariant keeps `seen` equal to the elements of `result` and of the prefix read so far |
| OrderedDedup.DedupBasics | Sets/CommandLine/python_sets_complete_guide.py:564-571 | the de-duplicated list has no repeated element, holds exactly the input's elements and is at most as long |
| OrderedDedup.DedupMonotone | Sets/CommandLine/python_sets_complete_guide.py:567-570 | every kept item comes from the input, and the first occurrences of kept items increase strictly along the result |
| OrderedDedup.DedupFirstOccurrenceOrder | Sets/CommandLine/python_sets_complete_guide.py:567-570 | x comes before y in the result if and only if x first occurs before y in the input |
| OrderedDedup.DedupIsSubsequence | Sets/CommandLine/python_sets_complete_guide.py:564-571 | the result is a subsequence of the input: some strictly increasing list of input positions holds its items one by one (that these are the first occurrences is `DedupMonotone`) |
| OrderedDedup.DedupOfNoDup | Sets/CommandLine/python_sets_complete_guide.py:564-571 | an input without duplicates comes back unchanged |
| OrderedDedup.DedupFixpoint | Sets/CommandLine/python_sets_complete_guide.py:564-571 | the result equals the input if and only if the input has no duplicates |
| OrderedDedup.DedupIdempotent | Sets/CommandLine/python_sets_complete_guide.py:564-571 | de-duplicating twice gives the same list as once |
| Menu.IsSpace | Sets/CommandLine/python_sets_complete_guide.py:899 | the characters `str.strip()` removes: U+0009 to U+000D, U+001C to U+0020, U+0085, U+00A0, U+1680, U+2000 to U+200A, U+2028, U+2029, U+202F, U+205F, U+3000 |
| Menu.StripLeading | Sets/CommandLine/python_sets_complete_guide.py:899 | drops white space from the front; its contract is `StripLeadingShape` and `StripLeadingOf` |
| Menu.StripTrailing | Sets/CommandLine/python_sets_complete_guide.py:899 | drops white space from the back; its contract is `StripTrailingShape` and `StripTrailingOfSuffix` |
| Menu.Strip | Sets/CommandLine/python_sets_complete_guide.py:899 | the trimming of the selection, both ends; what it returns is pinned down by `StripShape`, `StripIsSurrounded` and `StripUnique` |
| Menu.StripLeadingShape | Sets/CommandLine/python_sets_complete_guide.py:899 | left trimming leaves a suffix that starts with a non-space character, or nothing, and drops only white space |
| Menu.StripTrailingShape | Sets/CommandLine/python_sets_complete_guide.py:899 | right trimming leaves a prefix that ends with a non-space character, or nothing, and drops only white space |
| Menu.StripShape | Sets/CommandLine/python_sets_complete_guide.py:899 | the trimmed selection is no longer than the line and has no white space at either end |
| Menu.StripIsSurrounded | Sets/CommandLine/python_sets_complete_guide.py:899 | the trimmed selection is a slice of the line with only white space before and after it |
| Menu.StripUnique | Sets/CommandLine/python_sets_complete_guide.py:899 | when a line is white space, a core without white space at its ends, then white space, trimming yields exactly that core (so " 3\t" selects "3") |
| Menu.StripAllSpace | Sets/CommandLine/python_sets_complete_guide.py:899 | a line of white space only trims to the empty selection |
| Menu.StripAroundCore | Sets/CommandLine/python_sets_complete_guide.py:899 | the non-empty case of `StripUnique` |
| Menu.StripLeadingOf | Sets/CommandLine/python_sets_complete_guide.py:899 | left trimming stops at the first non-space character |
| Menu.StripTrailingOfSuffix | Sets/CommandLine/python_sets_complete_guide.py:899 | right trimming stops at the last non-space character |
| Menu.Classify | Sets/CommandLine/python_sets_complete_guide.py:901-930 | "0" and only "0" exits; a selection runs routines exactly when it is one of "1" to "10"; everything else (including "01", "11", "") is invalid; "1" to "3" run two distinct routines, "4" to "10" one |
| Menu.TopicOf | Sets/CommandLine/python_sets_complete_guide.py:905-927 | every demonstration routine is listed under some topic of the menu |
| Menu.TopicsAreDisjoint | Sets/CommandLine/python_sets_complete_guide.py:905-927 | no routine is listed under two topics |
| Menu.RunExample | Sets/CommandLine/python_sets_complete_guide.py:26-31 | one guarded call: the routine starts, and an exception becomes an "Error running example" report with its message; its contract is `RunExampleGuarded` |
| Menu.RunExampleGuarded | Sets/CommandLine/python_sets_complete_guide.py:26-31 | a guarded call starts the routine; if the routine raises, exactly one "Error running example" report with its message follows, and nothing propagates |
| Menu.RunAll | Sets/CommandLine/python_sets_complete_guide.py:905-927 | the guarded calls of one topic, one after the other; its contract is `RunAllRunsEveryRoutine` and `ErrorReportFollowsItsRoutine` |
| Menu.RunTopic | Sets/CommandLine/python_sets_complete_guide.py:905-933 | a topic's guarded calls followed by the continue prompt; its contract is `RunTopicShape` |
| Menu.RunAllRunsEveryRoutine | Sets/CommandLine/python_sets_complete_guide.py:905-927 | all routines of a topic run in the listed order whatever the earlier ones do; there is one error report per failing routine, in order; nothing else is printed |
| Menu.ErrorReportFollowsItsRoutine | Sets/CommandLine/python_sets_complete_guide.py:26-31 | each error report comes right after the start of the routine that failed and carries that routine's message |
| Menu.RunTopicShape | Sets/CommandLine/python_sets_complete_guide.py:905-933 | a topic runs its routines, then pauses exactly once, as its last event, with no invalid-choice or final message |
| Menu.Dispatch | Sets/CommandLine/python_sets_complete_guide.py:901-933 | the if/elif chain acting on a classified selection: farewell and stop, the invalid-choice message, or the topic; its contract is `DispatchOutcome` |
| Menu.ReadChoice | Sets/CommandLine/python_sets_complete_guide.py:896-940 | a turn at the menu: the menu, then the read; a line is trimmed and dispatched, an interrupt says goodbye and stops (:935-937), a failed read is reported and the loop goes on (:938-940); its contract is `StepShape` |
| Menu.Acknowledge | Sets/CommandLine/python_sets_complete_guide.py:932-940 | reading the acknowledgement of the pause: a line prints nothing, an interrupt says goodbye and stops, a failed read is reported; its contract is `StepShape` |
| Menu.Step | Sets/CommandLine/python_sets_complete_guide.py:895-940 | one iteration of the `while True` loop, in the menu or the paused state; its contract is `StepShape` |
| Menu.DispatchOutcome | Sets/CommandLine/python_sets_complete_guide.py:901-933 | "0" says farewell and stops with no routine and no pause; an invalid selection prints one message, no routine and no pause, and returns to the menu; a topic runs its routines, reports each failure once and pauses exactly once |
| Menu.AfterMenu | Sets/CommandLine/python_sets_complete_guide.py:896 | showing the menu before a turn keeps a final message, if any, last |
| Menu.StepShape | Sets/CommandLine/python_sets_complete_guide.py:895-940 | in every turn a final message is printed only as the last event, exactly when the loop stops; a continue prompt is printed exactly when the turn ends paused, only after a menu selection, and as the turn's last event; acknowledging a pause runs no routine |
| Menu.AfterTurn | Sets/CommandLine/python_sets_complete_guide.py:895-940 | adding one turn to a session that has not stopped keeps a final message, if any, last |
| Menu.Session | Sets/CommandLine/python_sets_complete_guide.py:889-940 | the welcome, then `Step` over the inputs until the loop stops; its contract is `SessionShape`, `SessionSnoc` and `SessionStopped`, and `RunGuide` computes it |
| Menu.SessionShape | Sets/CommandLine/python_sets_complete_guide.py:889-940 | a session opens with the welcome; the farewell or goodbye is printed at most once, as the very last event, exactly when the loop has stopped; while paused, the continue prompt is the last thing printed |
| Menu.SessionSnoc | Sets/CommandLine/python_sets_complete_guide.py:895-940 | one more input adds one turn to a running session and changes nothing once it has stopped |
| Menu.RunGuide | Sets/CommandLine/python_sets_complete_guide.py:889-940 | the loop reads inputs until it stops or they run out; its trace and state equal `Session` of the whole input; it stops early only by terminating, and the last input it read was the one that ended the session |
| Menu.SessionStopped | Sets/CommandLine/python_sets_complete_guide.py:904 | after the loop breaks nothing more is read or printed |
| Menu.ReadFailureKeepsGoing | Sets/CommandLine/python_sets_complete_guide.py:938-940 | a failed read prints "An error occurred" with its message (after the menu, when it happens at the menu prompt) and the loop returns to the menu |
| Menu.ReadFailuresNeverStop | Sets/CommandLine/python_sets_complete_guide.py:938-940 | any number of failed reads in a row (end of input, say) never end the session |
| Menu.SelectExit | Sets/CommandLine/python_sets_complete_guide.py:899-904 | a line trimming to "0" at the menu prints the menu and the farewell, then stops |
| Menu.SelectInvalid | Sets/CommandLine/python_sets_complete_guide.py:928-930 | an invalid selection prints the menu and one invalid-choice message, then returns to the menu without a pause |
| Menu.SelectTopic | Sets/CommandLine/python_sets_complete_guide.py:905-933 | a topic selection prints the menu, the guarded runs of its routines, then the continue prompt |
| Menu.AcknowledgePause | Sets/CommandLine/python_sets_complete_guide.py:932-933 | any line acknowledges the pause, prints nothing and returns to the menu |
| Menu.InterruptStops | Sets/CommandLine/python_sets_complete_guide.py:935-937 | an interrupt at either prompt prints the goodbye and stops the loop |
| Menu.TopicOneRuns | Sets/CommandLine/python_sets_complete_guide.py:905-907 | selecting " 1 " runs the creation and the properties routines in that order, then pauses |
| Menu.TopicThenExit | Sets/CommandLine/python_sets_complete_guide.py:889-940 | topic 1, acknowledgement, then "0": welcome, menu, two routines, one pause, menu, farewell, stop |
| Menu.InvalidThenExit | Sets/CommandLine/python_sets_complete_guide.py:928-930 | an invalid selection, then "0": exactly one invalid-choice message, no routine, no pause |
| Menu.SampleInvalidSelections | Sets/CommandLine/python_sets_complete_guide.py:901-930 | "99", "11", "-1", "abc" and "01" are invalid |
| Menu.FailureDoesNotStopTopic | Sets/CommandLine/python_sets_complete_guide.py:908-910 | when the first routine of topic 2 fails, its message is reported once, the second routine still runs, and the pause follows |

## Left out

- The bodies of the thirteen demonstration routines are not modelled. They only print text. Each is represented by how it ends (`Outcome`), given per routine for the whole session.
- Timing measurements, `sys.getsizeof` figures and the `dict.fromkeys` alternative are not modelled. They belong to the demonstration bodies.
- Console formatting is not modelled: section headers, the menu box, emoji and blank lines. Each message is one `Event`.
- A keyboard interrupt is modelled only at the two input prompts. An interrupt raised inside a demonstration routine is not modelled. It is not an `Exception`, so the guard would let it reach the outer handler. Other non-`Exception` errors are left out for the same reason.
- An error raised while printing the menu (outside the `try`) is not modelled.
- A failure of `print` inside the `try` is not modelled either. An example is the farewell's emoji line on a console whose encoding lacks those characters. The outer handler would report such a failure and the loop would go on, so even "0" would not stop. The model treats every print as succeeding.
- Any failure of `input()`, such as end of input, is one `ReadFailure` token. The real program would then repeat menu, error report and menu forever. The model reads a finite sequence of inputs, and `ReadFailuresNeverStop` states that such failures never end the session.
- RemoveDuplicatesOrdered: the source accepts any iterable of hashable items. The model takes a sequence of items with equality, which covers the same behaviour for a list.
- In the source, the `if choice != "0"` test before the pause is always true when it is reached: choice "0" has already left the loop. The model therefore pauses after every topic without that test.
