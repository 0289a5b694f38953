/**
 * The read-eval-print loop of `main` (main.py:149-168). Each turn reads one
 * line, strips it, and then ends the session on an exit word, skips a blank
 * line, or hands the line to the agent. What the terminal delivers and what
 * the agent answers are parameters: a sequence of input events and a
 * function from the forwarded line to the agent's outcome.
 */
module Session {
  import opened Text

  /** What one call of `input()` produced. */
  datatype InputEvent =
    | Line(text: string)         // a line of text
    | Interrupt                  // Ctrl-C at the prompt: KeyboardInterrupt
    | InputError(message: string) // any other exception, such as EOFError at the end of input

  /** What `agent_executor.invoke` did with a forwarded line. */
  datatype RouterReply =
    | Answer(output: string)     // it returned `{'output': output}`
    | Failure(message: string)   // it raised an exception
    | RouterInterrupted          // Ctrl-C while it ran: KeyboardInterrupt

  /** What one pass through the loop body did. */
  datatype Turn =
    | Exit                                      // an exit word: goodbye, then `break`
    | Skip                                      // a blank line: `continue`
    | Forward(request: string, reply: RouterReply) // the stripped line went to the agent
    | Cancel                                    // KeyboardInterrupt at the prompt: `break`
    | ReadFailure(message: string)              // `input()` raised: reported, and the loop goes on

  const ExitWords: seq<string> := ["exit", "quit", "bye"]

  /** The turns after which the loop is left. */
  predicate Ends(turn: Turn) {
    turn.Exit? || turn.Cancel? || (turn.Forward? && turn.reply.RouterInterrupted?)
  }

  /** The turn that one input event gives rise to. */
  function Step(event: InputEvent, router: string -> RouterReply): Turn {
    match event
    case Interrupt => Cancel
    case InputError(message) => ReadFailure(message)
    case Line(text) =>
      var input := Strip(text);
      if Lower(input) in ExitWords then Exit
      else if input == "" then Skip
      else Forward(input, router(input))
  }

  /**
   * How a line is classified: it ends the session exactly when its stripped,
   * lower-cased form is an exit word; it is skipped exactly when it is blank;
   * otherwise its stripped form, which is never blank and has no whitespace
   * at either end, is forwarded to the agent.
   */
  lemma StepClassifiesLine(text: string, router: string -> RouterReply)
    ensures Step(Line(text), router) == Exit <==> Lower(Strip(text)) in ExitWords
    ensures Step(Line(text), router) == Skip <==> forall i | 0 <= i < |text| :: IsSpace(text[i])
    ensures Step(Line(text), router).Forward? ==>
      var request := Step(Line(text), router).request;
      && request == Strip(text) && request != ""
      && !IsSpace(request[0]) && !IsSpace(request[|request| - 1])
      && Lower(request) !in ExitWords
      && Step(Line(text), router).reply == router(request)
  {
    StripEmptyIffBlank(text);
    StripEnds(text);
    assert Lower("") == "";
  }

  lemma ShoutedExit()
    ensures Strip("EXIT") == "EXIT" && Lower("EXIT") == "exit"
  {
    StripUnpadded("EXIT");
    assert Lower("EXIT") == "exit";
  }

  /** The exit words end the session in any letter case. */
  lemma ExitAnyCase(router: string -> RouterReply)
    ensures Step(Line("EXIT"), router) == Exit
  {
    ShoutedExit();
    assert "exit" == ExitWords[0];
    StepClassifiesLine("EXIT", router);
  }

  /** Whitespace around a line never changes how it is handled. */
  lemma StepIgnoresSurroundingSpace(text: string, router: string -> RouterReply)
    ensures Step(Line(text), router) == Step(Line(Strip(text)), router)
  {
    var input := Strip(text);
    StripIdempotent(text);
    assert Strip(input) == input;
  }

  /**
   * A failing agent, or a failing `input()`, does not end the session. This
   * includes the EOFError `input()` raises at the end of input, so the loop
   * never ends there.
   */
  lemma FailuresDoNotEnd(text: string, message: string, router: string -> RouterReply)
    ensures !Ends(Step(InputError(message), router))
    ensures router(Strip(text)).Failure? && Lower(Strip(text)) !in ExitWords ==> !Ends(Step(Line(text), router))
  {
  }

  /**
   * `main`: run the loop over the events the terminal delivers. The turns
   * are the steps of the events in order; the loop stops right after the
   * first turn that ends it, and otherwise consumes every event.
   */
  method RunSession(events: seq<InputEvent>, router: string -> RouterReply)
    returns (turns: seq<Turn>, ended: bool)
    ensures |turns| <= |events|
    ensures forall k | 0 <= k < |turns| :: turns[k] == Step(events[k], router)
    ensures forall k | 0 <= k < |turns| - 1 :: !Ends(turns[k])
    ensures ended <==> |turns| > 0 && Ends(turns[|turns| - 1])
    ensures !ended ==> |turns| == |events|
  {
    turns, ended := [], false;
    var i := 0;
    while i < |events|
      invariant 0 <= i <= |events| && |turns| == i
      invariant forall k | 0 <= k < i :: turns[k] == Step(events[k], router) && !Ends(turns[k])
    {
      var turn := Step(events[i], router);
      turns := turns + [turn];
      if Ends(turn) {
        ended := true;
        break;
      }
      i := i + 1;
    }
  }

  /** Only lines reach the agent, stripped, and never a blank one. */
  lemma ForwardedRequestsAreNonBlank(events: seq<InputEvent>, router: string -> RouterReply, turns: seq<Turn>)
    requires |turns| <= |events|
    requires forall k | 0 <= k < |turns| :: turns[k] == Step(events[k], router)
    ensures forall k | 0 <= k < |turns| && turns[k].Forward? ::
      events[k].Line? && turns[k].request == Strip(events[k].text) && turns[k].request != ""
  {
    forall k | 0 <= k < |turns| && turns[k].Forward?
      ensures events[k].Line? && turns[k].request == Strip(events[k].text) && turns[k].request != ""
    {
      if events[k].Line? {
        StepClassifiesLine(events[k].text, router);
      }
    }
  }
}
