/**
  The screen as a whole: the recognition events drive the reconciler, and
  every text it hands on in command mode is parsed into an action.
 */
module Screen {
  import opened Wrappers
  import Commands
  import Reconciler

  /** The parser applied to each text in turn. */
  function ParseAll(texts: seq<string>): (acts: seq<Commands.Action>)
    ensures |acts| == |texts|
    ensures forall i :: 0 <= i < |texts| ==> acts[i] == Commands.Parse(texts[i])
    decreases |texts|
  {
    if |texts| == 0 then [] else [Commands.Parse(texts[0])] + ParseAll(texts[1..])
  }

  /** Parsing a concatenation parses the parts one after the other. */
  lemma {:induction false} ParseAllAppend(a: seq<string>, b: seq<string>)
    ensures ParseAll(a + b) == ParseAll(a) + ParseAll(b)
    decreases |a|
  {
    if |a| > 0 {
      assert (a + b)[1..] == a[1..] + b;
      ParseAllAppend(a[1..], b);
    }
  }

  /** The actions a run of events sets off, in order. */
  function Actions(st: Reconciler.State, events: seq<Reconciler.Event>): (acts: seq<Commands.Action>)
    ensures |acts| <= |events|
  {
    ParseAll(Reconciler.Run(st, events).commands)
  }

  /** The actions are the parses of the final texts spoken while command
      mode is on. */
  lemma ActionsAreParsedCommands(st: Reconciler.State, events: seq<Reconciler.Event>)
    ensures Actions(st, events) == ParseAll(Reconciler.Commanded(st.commandMode, events))
  {
    Reconciler.CommandsAreCommanded(st, events);
  }

  /** A final result spoken in command mode sets off exactly the action the
      parser reads from it. */
  lemma CommandFinalActs(st: Reconciler.State, text: string)
    requires st.commandMode
    ensures Actions(st, [Reconciler.Final(Some(text))]) == [Commands.Parse(text)]
  {
    Reconciler.CommandFinalIsParsed(st, text);
  }

  /** Outside command mode and without a toggle, no speech sets anything off. */
  lemma DictationActsNothing(st: Reconciler.State, events: seq<Reconciler.Event>)
    requires !st.commandMode
    requires forall i :: 0 <= i < |events| ==> events[i] != Reconciler.ToggleCommand
    ensures Actions(st, events) == []
  {
    Reconciler.CommandsAreCommanded(st, events);
    Reconciler.CommandModeOffParsesNothing(events);
  }

  /** The actions of two runs in a row are those of the first followed by
      those of the second. */
  lemma ActionsAppend(st: Reconciler.State, a: seq<Reconciler.Event>, b: seq<Reconciler.Event>)
    ensures Actions(st, a + b) == Actions(st, a) + Actions(Reconciler.Run(st, a).state, b)
  {
    Reconciler.RunAppend(st, a, b);
    ParseAllAppend(Reconciler.Run(st, a).commands, Reconciler.Run(Reconciler.Run(st, a).state, b).commands);
  }
}
