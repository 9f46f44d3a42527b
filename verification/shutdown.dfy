/** The decision logic of the Shutdown command (`dev::ShutdownCommand::invoke`):
    a confirmation prompt, two reactions on it, a wait for the author's
    reaction, then deleting the prompt and exiting or not. Every Discord call
    is an input: whether it succeeded, and which reaction arrived. */
module Shutdown {
  import opened Wrappers
  import opened Config

  const PROMPT: string := "Are you sure?"

  /** Seconds the command waits for the author's reaction. */
  const TIMEOUT_SECONDS: nat := 60

  /** The two reactions the wait accepts: ✅ and ❎. */
  datatype Mark = CheckMark | CrossMark

  function MarkChar(m: Mark): (c: char)
    ensures c == '✅' <==> m == CheckMark
  {
    match m
    case CheckMark => '✅'
    case CrossMark => '❎'
  }

  /** A Discord call the command makes, in the order it makes them. */
  datatype Action =
    | SendPrompt(reply: Reply)
    | React(mark: Mark)
    | AwaitReaction(seconds: nat)
    | DeletePrompt
    | Exit

  /** The results of the Discord calls, as far as the command gets: the
      prompt being sent, the two reactions being added, the reaction that
      arrived within the timeout (`None` when none did), and the prompt being
      deleted. `None` stands for success, `Some(e)` for an error `e`. */
  datatype Outcomes = Outcomes(
    prompt: Option<string>,
    reactCheck: Option<string>,
    reactCross: Option<string>,
    reaction: Option<Mark>,
    delete: Option<string>)

  /** How the command ends: the process exits, the command returns `Ok`, or
      it returns the error of the call that failed. */
  datatype Ending = Exited | Finished | Failed(error: string)

  datatype Run = Run(actions: seq<Action>, ending: Ending)

  /** `invoke` for Shutdown. A failed prompt exits at once. A failed
      reaction is returned as the error. After the wait, with or without a
      reaction, the prompt is deleted, and a failed delete is returned as the
      error; otherwise a check mark exits and a cross mark or a timeout
      returns `Ok`. */
  function ShutdownCommand(o: Outcomes): (r: Run)
    ensures r.ending == Exited <==>
      o.prompt.Some? ||
      (o.reactCheck.None? && o.reactCross.None? && o.delete.None? && o.reaction == Some(CheckMark))
    ensures r.ending.Failed? <==>
      o.prompt.None? && (o.reactCheck.Some? || o.reactCross.Some? || o.delete.Some?)
    ensures o.prompt.None? && o.reactCheck.Some? ==> r.ending == Failed(o.reactCheck.value)
    ensures o.prompt.None? && o.reactCheck.None? && o.reactCross.Some? ==> r.ending == Failed(o.reactCross.value)
    ensures o.prompt.None? && o.reactCheck.None? && o.reactCross.None? && o.delete.Some? ==>
      r.ending == Failed(o.delete.value)
    ensures |r.actions| >= 1 && r.actions[0] == SendPrompt(Reply(PROMPT, Confirmation))
    ensures (r.ending == Exited) == (r.actions[|r.actions| - 1] == Exit)
  {
    var send := [SendPrompt(Reply(PROMPT, Confirmation))];
    if o.prompt.Some? then Run(send + [Exit], Exited)
    else if o.reactCheck.Some? then Run(send + [React(CheckMark)], Failed(o.reactCheck.value))
    else if o.reactCross.Some? then Run(send + [React(CheckMark), React(CrossMark)], Failed(o.reactCross.value))
    else
      var waited := send + [React(CheckMark), React(CrossMark), AwaitReaction(TIMEOUT_SECONDS), DeletePrompt];
      if o.delete.Some? then Run(waited, Failed(o.delete.value))
      else if o.reaction == Some(CheckMark) then Run(waited + [Exit], Exited)
      else Run(waited, Finished)
  }

  /** The prompt is deleted exactly when both reactions were added, and
      then before anything else happens: whether a reaction came or the
      wait timed out, the process never exits with the prompt still
      showing, except when the prompt itself could not be sent. */
  lemma DeleteBeforeExit(o: Outcomes)
    ensures var r := ShutdownCommand(o);
      (DeletePrompt in r.actions <==> o.prompt.None? && o.reactCheck.None? && o.reactCross.None?) &&
      (r.ending == Exited && o.prompt.None? ==> r.actions[|r.actions| - 2] == DeletePrompt)
  {
  }

  /** A cross mark and a timeout end the same way: the prompt is deleted
      and the command returns without exiting. */
  lemma CrossMarkLikeTimeout(o: Outcomes)
    requires o.prompt.None? && o.reactCheck.None? && o.reactCross.None? && o.delete.None?
    ensures ShutdownCommand(o.(reaction := Some(CrossMark))) == ShutdownCommand(o.(reaction := None))
    ensures ShutdownCommand(o.(reaction := None)).ending == Finished
  {
  }

  /** A failed delete stops the command even after a check mark: the bot
      keeps running. */
  lemma FailedDeleteKeepsRunning(o: Outcomes)
    requires o.prompt.None? && o.reactCheck.None? && o.reactCross.None? && o.delete.Some?
    ensures ShutdownCommand(o.(reaction := Some(CheckMark))).ending == Failed(o.delete.value)
  {
  }

  /** The reactions are added in the order ✅ then ❎, and the wait comes
      after both. */
  lemma ReactionOrder(o: Outcomes)
    requires o.prompt.None? && o.reactCheck.None? && o.reactCross.None?
    ensures ShutdownCommand(o).actions[1..4] ==
      [React(CheckMark), React(CrossMark), AwaitReaction(TIMEOUT_SECONDS)]
  {
  }
}
