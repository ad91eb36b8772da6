/**
  The recognition screen as a state machine: every callback or button press
  that reaches the activity is an `Event`, and each one moves the screen's
  state to a new one, possibly redrawing the main text view and, for a final
  result in command mode, handing the text to the command parser.
 */
module Reconciler {
  import opened Wrappers

  /** A speech service, as far as the screen can tell. */
  datatype Service = Listening | Stopped

  /** What the activity keeps between callbacks. `services` lists every
      speech service created so far, oldest first; the last one is the one
      the `speechService` field refers to, and none exists before the first
      successful start. `display` is the main text view and `dictation` the
      dictation view. */
  datatype State = State(
    modelReady: bool,
    services: seq<Service>,
    lastPartialText: string,
    display: string,
    dictation: string,
    commandMode: bool)

  /** The state before anything has happened: no model, no service, command
      mode off. */
  const Initial := State(false, [], "", "", "", false)

  /** Everything that can happen to the screen. A hypothesis that is absent,
      is not JSON or lacks the expected key is `None`; `Error` carries the
      exception's message, `None` when there is none. `Flush` is the
      end-of-stream result that arrives when a service stops. */
  datatype Event =
    | ModelLoaded
    | ModelLoadFailed
    | Start
    | Stop
    | ToggleCommand
    | Partial(partial: Option<string>)
    | Final(text: Option<string>)
    | Flush(hypothesis: Option<string>)
    | Error(message: Option<string>)
    | Timeout

  /** The outcome of one event: the new state, whether the main text view
      was written, and the text handed to the command parser, if any. */
  datatype Reaction = Reaction(state: State, redrawn: bool, command: Option<string>)

  /** Every service but the current one has been stopped. */
  ghost predicate Valid(st: State) {
    forall i :: 0 <= i < |st.services| - 1 ==> st.services[i] == Stopped
  }

  /** How many services are listening. */
  function CountListening(ss: seq<Service>): nat {
    if |ss| == 0 then 0
    else CountListening(ss[..|ss| - 1]) + (if ss[|ss| - 1] == Listening then 1 else 0)
  }

  /** `speechService.stop()` on the current service, if there is one. */
  function StopCurrent(ss: seq<Service>): seq<Service> {
    if |ss| == 0 then ss else ss[..|ss| - 1] + [Stopped]
  }

  function ErrorText(message: Option<string>): (t: string)
    ensures |t| >= 7 && t[..7] == "Error: "
    ensures message.Some? ==> t[7..] == message.value
    ensures message.None? ==> t[7..] == "null"
  {
    "Error: " + message.GetOr("null")
  }

  /** Two errors read alike exactly when their messages do, an absent
      message reading as "null"; no error reads like the timeout. */
  lemma ErrorTextDistinguishes(a: Option<string>, b: Option<string>)
    ensures ErrorText(a) == ErrorText(b) <==> a.GetOr("null") == b.GetOr("null")
    ensures ErrorText(a) != TimeoutText
  {
    if ErrorText(a) == ErrorText(b) {
      assert ErrorText(a)[7..] == ErrorText(b)[7..];
    }
    assert ErrorText(a)[0] != TimeoutText[0];
  }

  const TimeoutText := "Timeout: No input detected."

  /** The start button. Without a loaded model the start throws before
      touching anything, and the exception is caught; otherwise the current
      service is stopped, a new one listens and both views are cleared. The
      last partial text is kept. */
  function OnStart(st: State): (r: State)
    ensures !st.modelReady ==> r == st
    ensures st.modelReady ==> && |r.services| == |st.services| + 1
                              && r.services[|st.services|] == Listening
                              && (forall i :: 0 <= i < |st.services| - 1 ==> r.services[i] == st.services[i])
                              && (|st.services| > 0 ==> r.services[|st.services| - 1] == Stopped)
    ensures st.modelReady ==> r == st.(services := r.services, display := "", dictation := "")
  {
    if !st.modelReady then st
    else st.(services := StopCurrent(st.services) + [Listening], display := "", dictation := "")
  }

  /** The stop button. Before the first start there is no service and the
      stop throws, which is caught; otherwise the current service stops.
      Nothing else changes. */
  function OnStop(st: State): (r: State)
    ensures r == st.(services := r.services)
    ensures |r.services| == |st.services|
    ensures forall i :: 0 <= i < |st.services| - 1 ==> r.services[i] == st.services[i]
    ensures |st.services| > 0 ==> r.services[|st.services| - 1] == Stopped
  {
    st.(services := StopCurrent(st.services))
  }

  /** A partial hypothesis is shown, and remembered, only when it differs
      from the last partial text remembered. */
  function OnPartial(st: State, partial: Option<string>): (r: Reaction)
    ensures r.command == None
    ensures r.redrawn <==> partial.Some? && partial.value != st.lastPartialText
    ensures r.redrawn ==> r.state == st.(lastPartialText := partial.value, display := partial.value)
    ensures !r.redrawn ==> r.state == st
  {
    match partial
    case Some(p) =>
      if p != st.lastPartialText then Reaction(st.(lastPartialText := p, display := p), true, None)
      else Reaction(st, false, None)
    case None => Reaction(st, false, None)
  }

  /** A final hypothesis always replaces what is shown and is appended,
      followed by a space, to the dictation; in command mode the shown text
      also goes to the command parser. The last partial text is left as it
      was. */
  function OnFinal(st: State, text: Option<string>): (r: Reaction)
    ensures text.None? ==> r == Reaction(st, false, None)
    ensures text.Some? ==> && r.redrawn
                           && r.state == st.(display := text.value, dictation := st.dictation + text.value + " ")
    ensures r.command.Some? <==> text.Some? && st.commandMode
    ensures r.command.Some? ==> r.command.value == r.state.display
  {
    match text
    case Some(t) =>
      var shown := st.(display := t, dictation := st.dictation + t + " ");
      Reaction(shown, true, if st.commandMode then Some(shown.display) else None)
    case None => Reaction(st, false, None)
  }

  /** One event. A successful model load only makes the model available; a
      failed one, like the end-of-stream result, changes nothing. Errors and
      timeouts only overwrite the main text view. */
  function Step(st: State, e: Event): (r: Reaction)
    ensures r.state.modelReady == (st.modelReady || e == ModelLoaded)
    ensures r.state.commandMode == (if e == ToggleCommand then !st.commandMode else st.commandMode)
    ensures r.command.Some? <==> st.commandMode && e.Final? && e.text.Some?
    ensures r.command.Some? ==> r.command.value == e.text.value
    ensures e.ModelLoaded? ==> r == Reaction(st.(modelReady := true), false, None)
    ensures e.ToggleCommand? ==> r == Reaction(st.(commandMode := !st.commandMode), false, None)
    ensures e.ModelLoadFailed? || e.Flush? ==> r == Reaction(st, false, None)
    ensures e.Error? ==> r == Reaction(st.(display := ErrorText(e.message)), true, None)
    ensures e.Timeout? ==> r == Reaction(st.(display := TimeoutText), true, None)
  {
    match e
    case ModelLoaded => Reaction(st.(modelReady := true), false, None)
    case ModelLoadFailed => Reaction(st, false, None)
    case Start => Reaction(OnStart(st), st.modelReady, None)
    case Stop => Reaction(OnStop(st), false, None)
    case ToggleCommand => Reaction(st.(commandMode := !st.commandMode), false, None)
    case Partial(p) => OnPartial(st, p)
    case Final(t) => OnFinal(st, t)
    case Flush(_) => Reaction(st, false, None)
    case Error(m) => Reaction(st.(display := ErrorText(m)), true, None)
    case Timeout => Reaction(st.(display := TimeoutText), true, None)
  }

  /** The result of a sequence of events: the final state, how many times
      the main text view was written, and the texts handed to the command
      parser, in order. */
  datatype Trace = Trace(state: State, redraws: nat, commands: seq<string>)

  function Run(st: State, events: seq<Event>): (t: Trace)
    ensures t.redraws <= |events|
    ensures |t.commands| <= |events|
    decreases |events|
  {
    if |events| == 0 then Trace(st, 0, [])
    else
      var r := Step(st, events[0]);
      var rest := Run(r.state, events[1..]);
      Trace(rest.state,
            rest.redraws + (if r.redrawn then 1 else 0),
            (if r.command.Some? then [r.command.value] else []) + rest.commands)
  }

  /** One step, then the rest. */
  lemma RunUnfold(st: State, events: seq<Event>)
    requires |events| > 0
    ensures var r := Step(st, events[0]);
            var rest := Run(r.state, events[1..]);
            Run(st, events) == Trace(rest.state,
                                     rest.redraws + (if r.redrawn then 1 else 0),
                                     (if r.command.Some? then [r.command.value] else []) + rest.commands)
  {
  }

  /** Two events in a row. */
  lemma RunPair(st: State, e1: Event, e2: Event)
    ensures var r1 := Step(st, e1);
            var r2 := Step(r1.state, e2);
            && Run(st, [e1, e2]).state == r2.state
            && Run(st, [e1, e2]).redraws == (if r1.redrawn then 1 else 0) + (if r2.redrawn then 1 else 0)
            && Run(st, [e1, e2]).commands == (if r1.command.Some? then [r1.command.value] else [])
                                             + (if r2.command.Some? then [r2.command.value] else [])
  {
    var r1 := Step(st, e1);
    RunUnfold(st, [e1, e2]);
    assert [e1, e2][1..] == [e2];
    RunUnfold(r1.state, [e2]);
    assert [e2][1..] == [];
  }

  /** Running two sequences one after the other is running their
      concatenation: same final state, redraws added up, parser inputs
      concatenated. */
  lemma RunAppend(st: State, a: seq<Event>, b: seq<Event>)
    ensures Run(st, a + b).state == Run(Run(st, a).state, b).state
    ensures Run(st, a + b).redraws == Run(st, a).redraws + Run(Run(st, a).state, b).redraws
    ensures Run(st, a + b).commands == Run(st, a).commands + Run(Run(st, a).state, b).commands
  {
    RunAppendState(st, a, b);
    RunAppendRedraws(st, a, b);
    RunAppendCommands(st, a, b);
  }

  lemma {:induction false} RunAppendState(st: State, a: seq<Event>, b: seq<Event>)
    ensures Run(st, a + b).state == Run(Run(st, a).state, b).state
    decreases |a|
  {
    if |a| == 0 {
      assert a + b == b;
    } else {
      var r := Step(st, a[0]);
      assert (a + b)[0] == a[0];
      assert (a + b)[1..] == a[1..] + b;
      RunAppendState(r.state, a[1..], b);
      RunUnfold(st, a);
      RunUnfold(st, a + b);
    }
  }

  lemma {:induction false} RunAppendRedraws(st: State, a: seq<Event>, b: seq<Event>)
    ensures Run(st, a + b).redraws == Run(st, a).redraws + Run(Run(st, a).state, b).redraws
    decreases |a|
  {
    if |a| == 0 {
      assert a + b == b;
    } else {
      var r := Step(st, a[0]);
      assert (a + b)[0] == a[0];
      assert (a + b)[1..] == a[1..] + b;
      RunAppendRedraws(r.state, a[1..], b);
      RunUnfold(st, a);
      RunUnfold(st, a + b);
    }
  }

  lemma {:induction false} RunAppendCommands(st: State, a: seq<Event>, b: seq<Event>)
    ensures Run(st, a + b).commands == Run(st, a).commands + Run(Run(st, a).state, b).commands
    decreases |a|
  {
    if |a| == 0 {
      assert a + b == b;
    } else {
      var r := Step(st, a[0]);
      var head := if r.command.Some? then [r.command.value] else [];
      var mid := Run(r.state, a[1..]);
      var tail := Run(mid.state, b);
      assert (a + b)[0] == a[0];
      assert (a + b)[1..] == a[1..] + b;
      RunAppendCommands(r.state, a[1..], b);
      RunUnfold(st, a);
      RunUnfold(st, a + b);
      assert head + (mid.commands + tail.commands) == (head + mid.commands) + tail.commands;
    }
  }

  // Services

  lemma {:induction false} AllStoppedSilent(ss: seq<Service>)
    requires forall i :: 0 <= i < |ss| ==> ss[i] == Stopped
    ensures CountListening(ss) == 0
    decreases |ss|
  {
    if |ss| > 0 {
      AllStoppedSilent(ss[..|ss| - 1]);
    }
  }

  /** At most one service listens at any time, and only the current one
      can. */
  lemma AtMostOneListening(st: State)
    requires Valid(st)
    ensures CountListening(st.services) <= 1
    ensures CountListening(st.services) == 1 <==> |st.services| > 0 && st.services[|st.services| - 1] == Listening
  {
    if |st.services| > 0 {
      AllStoppedSilent(st.services[..|st.services| - 1]);
    }
  }

  /** Once the model is loaded, a start leaves exactly one service
      listening: the new one. */
  lemma StartListensAlone(st: State)
    requires Valid(st) && st.modelReady
    ensures CountListening(Step(st, Start).state.services) == 1
  {
    StepKeepsValid(st, Start);
    AtMostOneListening(Step(st, Start).state);
  }

  /** After a stop nothing listens. */
  lemma StopSilences(st: State)
    requires Valid(st)
    ensures CountListening(Step(st, Stop).state.services) == 0
  {
    StepKeepsValid(st, Stop);
    AtMostOneListening(Step(st, Stop).state);
  }

  /** Every event keeps every service but the current one stopped. */
  lemma StepKeepsValid(st: State, e: Event)
    requires Valid(st)
    ensures Valid(Step(st, e).state)
  {
  }

  /** Any run keeps every service but the current one stopped. */
  lemma {:induction false} RunKeepsValid(st: State, events: seq<Event>)
    requires Valid(st)
    ensures Valid(Run(st, events).state)
    decreases |events|
  {
    if |events| > 0 {
      StepKeepsValid(st, events[0]);
      RunKeepsValid(Step(st, events[0]).state, events[1..]);
      RunUnfold(st, events);
    }
  }

  /** A valid state reached from the initial one by any events keeps at most
      one service listening. */
  lemma RunListensAtMostOnce(events: seq<Event>)
    ensures CountListening(Run(Initial, events).state.services) <= 1
  {
    RunKeepsValid(Initial, events);
    AtMostOneListening(Run(Initial, events).state);
  }

  // Partial results

  function Repeat(e: Event, n: nat): (es: seq<Event>)
    ensures |es| == n && forall i :: 0 <= i < n ==> es[i] == e
  {
    seq(n, _ => e)
  }

  /** A partial text repeated any number of times is drawn at most once:
      once if it differs from the last partial text, not at all otherwise. */
  lemma {:induction false} RepeatedPartialDrawnOnce(st: State, p: string, n: nat)
    requires n > 0
    ensures Run(st, Repeat(Partial(Some(p)), n)).redraws == (if p != st.lastPartialText then 1 else 0)
    ensures Run(st, Repeat(Partial(Some(p)), n)).state.lastPartialText == p
    ensures p != st.lastPartialText ==> Run(st, Repeat(Partial(Some(p)), n)).state.display == p
    ensures p != st.lastPartialText ==> Run(st, Repeat(Partial(Some(p)), n)).state == st.(lastPartialText := p, display := p)
    ensures p == st.lastPartialText ==> Run(st, Repeat(Partial(Some(p)), n)).state == st
    decreases n
  {
    var es := Repeat(Partial(Some(p)), n);
    var next := Step(st, Partial(Some(p))).state;
    assert es[1..] == Repeat(Partial(Some(p)), n - 1);
    RunUnfold(st, es);
    if n > 1 {
      RepeatedPartialDrawnOnce(next, p, n - 1);
    } else {
      assert es[1..] == [];
    }
  }

  /** The text of the latest partial hypothesis among `events`, or `init`
      when there is none. */
  function LatestPartial(init: string, events: seq<Event>): string
    decreases |events|
  {
    if |events| == 0 then init
    else match events[|events| - 1]
      case Partial(Some(p)) => p
      case _ => LatestPartial(init, events[..|events| - 1])
  }

  /** The remembered partial text is always the latest partial hypothesis;
      neither a start, a final result nor anything else resets it. */
  lemma {:induction false} RememberedPartialIsLatest(st: State, events: seq<Event>)
    ensures Run(st, events).state.lastPartialText == LatestPartial(st.lastPartialText, events)
    decreases |events|
  {
    if |events| > 0 {
      var init := events[..|events| - 1];
      var last := events[|events| - 1];
      assert init + [last] == events;
      RunAppend(st, init, [last]);
      RememberedPartialIsLatest(st, init);
      assert [last][1..] == [];
    }
  }

  /** After a restart, a first partial equal to the last one of the previous
      session is not shown: the cleared view stays empty. */
  lemma StalePartialHiddenAfterRestart(st: State)
    requires st.modelReady
    ensures Run(st, [Start, Partial(Some(st.lastPartialText))]).state.display == ""
    ensures Run(st, [Start, Partial(Some(st.lastPartialText))]).redraws == 1
  {
    var restarted := Step(st, Start);
    assert restarted.redrawn;
    assert restarted.state.lastPartialText == st.lastPartialText && restarted.state.display == "";
    var repeated := Step(restarted.state, Partial(Some(st.lastPartialText)));
    assert !repeated.redrawn && repeated.state == restarted.state;
    RunPair(st, Start, Partial(Some(st.lastPartialText)));
  }

  /** An error message stays on screen when the recogniser then repeats the
      partial text it had before the error. */
  lemma ErrorOutlivesRepeatedPartial(st: State, message: Option<string>)
    ensures Run(st, [Error(message), Partial(Some(st.lastPartialText))]).state.display == ErrorText(message)
  {
    var failed := Step(st, Error(message)).state;
    assert failed == st.(display := ErrorText(message));
    var repeated := Step(failed, Partial(Some(st.lastPartialText)));
    assert repeated.state == failed;
    RunPair(st, Error(message), Partial(Some(st.lastPartialText)));
  }

  // Dictation

  /** Whether `events` is free of starts. */
  predicate NoStart(events: seq<Event>) {
    forall i :: 0 <= i < |events| ==> events[i] != Start
  }

  /** The text an event adds to a dictation: a final text followed by a
      space, nothing for any other event. */
  function Heard(e: Event): string {
    match e
    case Final(Some(t)) => t + " "
    case _ => ""
  }

  /** The final texts among `events`, each followed by a space. */
  function Transcript(events: seq<Event>): string
    decreases |events|
  {
    if |events| == 0 then "" else Heard(events[0]) + Transcript(events[1..])
  }

  /** Any event but a start adds to the dictation exactly what it says. */
  lemma StepDictation(st: State, e: Event)
    requires e != Start
    ensures Step(st, e).state.dictation == st.dictation + Heard(e)
  {
    assert st.dictation + "" == st.dictation;
  }

  /** Without a start in between, the dictation view grows by exactly the
      final texts, in order: partial results, errors, timeouts and command
      mode never touch it. */
  lemma {:induction false} DictationIsTranscript(st: State, events: seq<Event>)
    requires NoStart(events)
    ensures Run(st, events).state.dictation == st.dictation + Transcript(events)
    decreases |events|
  {
    if |events| > 0 {
      var next := Step(st, events[0]).state;
      var rest := Transcript(events[1..]);
      StepDictation(st, events[0]);
      DictationIsTranscript(next, events[1..]);
      RunUnfold(st, events);
      assert st.dictation + Heard(events[0]) + rest == st.dictation + (Heard(events[0]) + rest);
    }
  }

  /** A start with the model loaded, then any events without another start:
      the dictation view holds exactly the final texts since the start. */
  lemma DictationSinceStart(st: State, events: seq<Event>)
    requires st.modelReady && NoStart(events)
    ensures Run(st, [Start] + events).state.dictation == Transcript(events)
  {
    RunAppend(st, [Start], events);
    assert [Start][1..] == [];
    DictationIsTranscript(Step(st, Start).state, events);
    assert "" + Transcript(events) == Transcript(events);
  }

  // Command mode

  /** How many times `events` toggles command mode. */
  function Toggles(events: seq<Event>): nat
    decreases |events|
  {
    if |events| == 0 then 0
    else (if events[0] == ToggleCommand then 1 else 0) + Toggles(events[1..])
  }

  /** The parser's input as a reader of the event log would find it: every
      final text that arrives while command mode is on, where the mode starts
      as `mode` and each toggle flips it. */
  function Commanded(mode: bool, events: seq<Event>): seq<string>
    decreases |events|
  {
    if |events| == 0 then []
    else match events[0]
      case ToggleCommand => Commanded(!mode, events[1..])
      case Final(Some(t)) => (if mode then [t] else []) + Commanded(mode, events[1..])
      case _ => Commanded(mode, events[1..])
  }

  /** The parser receives exactly the final texts that arrive while command
      mode is on. */
  lemma {:induction false} CommandsAreCommanded(st: State, events: seq<Event>)
    ensures Run(st, events).commands == Commanded(st.commandMode, events)
    decreases |events|
  {
    if |events| > 0 {
      var r := Step(st, events[0]);
      CommandsAreCommanded(r.state, events[1..]);
      RunUnfold(st, events);
      match events[0]
      case ToggleCommand =>
        assert r.command == None && r.state.commandMode == !st.commandMode;
      case Final(Some(t)) =>
        assert r.state.commandMode == st.commandMode;
      case _ =>
        assert r.command == None && r.state.commandMode == st.commandMode;
    }
  }

  /** Command mode ends flipped once per toggle. */
  lemma {:induction false} CommandModeFollowsToggles(st: State, events: seq<Event>)
    ensures Run(st, events).state.commandMode == (if Toggles(events) % 2 == 0 then st.commandMode else !st.commandMode)
    decreases |events|
  {
    if |events| > 0 {
      CommandModeFollowsToggles(Step(st, events[0]).state, events[1..]);
      RunUnfold(st, events);
    }
  }

  /** With command mode off and never toggled, nothing reaches the parser. */
  lemma {:induction false} CommandModeOffParsesNothing(events: seq<Event>)
    requires forall i :: 0 <= i < |events| ==> events[i] != ToggleCommand
    ensures Commanded(false, events) == []
    decreases |events|
  {
    if |events| > 0 {
      CommandModeOffParsesNothing(events[1..]);
    }
  }

  /** A final result spoken in command mode goes to the parser exactly
      once, as the text now on display. */
  lemma CommandFinalIsParsed(st: State, text: string)
    requires st.commandMode
    ensures Run(st, [Final(Some(text))]).commands == [text]
    ensures Run(st, [Final(Some(text))]).state.display == text
  {
    RunUnfold(st, [Final(Some(text))]);
    assert [Final(Some(text))][1..] == [];
  }

  /** Pressing the command toggle twice restores the state. */
  lemma ToggleTwiceRestores(st: State)
    ensures Run(st, [ToggleCommand, ToggleCommand]) == Trace(st, 0, [])
  {
    RunPair(st, ToggleCommand, ToggleCommand);
  }

  /** Stopping twice is stopping once. */
  lemma StopIdempotent(st: State)
    ensures Step(Step(st, Stop).state, Stop) == Step(st, Stop)
  {
  }
}
