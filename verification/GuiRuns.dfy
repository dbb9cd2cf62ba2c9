/**
 * What prompt and controller tell each other over a whole run of `GuiPrompt`, said of the steps
 * alone; and the controller's own loop, against a prompt and a client that act as they like.
 */
module GuiRuns {
  import opened Wrappers
  import opened GuiPrompt

  // ----- what the prompt sends -----

  /** What a step of the prompt sends, if `n` outcomes were sent before. */
  function Sent(s: State, step: Step, n: nat): seq<Outcome> {
    if s.prompt == Closed || s.controller.Finished? then []
    else
      match step
      case SubmitStep(_, password) => if s.prompt == Open(None) then [Allowed(password, n)] else []
      case CloseStep(outcome) => [outcome]
      case _ => []
  }

  /** Everything the prompt sends in a run: each accepted password as typed, and the outcome it was closed with. */
  function Outbox(steps: seq<Step>): seq<Outcome>
    requires Run(Initial, steps).Some?
    decreases |steps|
  {
    if steps == [] then []
    else
      var front := steps[..|steps| - 1];
      Outbox(front) + Sent(Run(Initial, front).value, steps[|steps| - 1], |Outbox(front)|)
  }

  lemma SentIs(s: State, step: Step)
    requires Inv(s) && Enabled(s, step)
    ensures Apply(s, step).history == s.history + Sent(s, step, |s.history|)
  {
  }

  lemma {:induction false} OutboxIsHistory(steps: seq<Step>)
    requires Run(Initial, steps).Some?
    ensures Run(Initial, steps).value.history == Outbox(steps)
  {
    hide Apply, Enabled, Inv, Sent;
    if steps != [] {
      var front := steps[..|steps| - 1];
      OutboxIsHistory(front);
      RunKeepsInv(front);
      SentIs(Run(Initial, front).value, steps[|steps| - 1]);
    }
  }

  // ----- what the controller checks and answers -----

  /** The verdicts of a run, in order. */
  function Verdicts(steps: seq<Step>): seq<Verdict> {
    if steps == [] then []
    else
      var last := steps[|steps| - 1];
      Verdicts(steps[..|steps| - 1]) + if last.CheckStep? then [last.verdict] else []
  }

  /** The answer to the submission of that number: only the first two get another try. */
  function AnswerTo(verdict: Verdict, number: nat): Feedback {
    if verdict == Wrong && number < 2 then Incorrect else Complete
  }

  /** Every verdict was answered in its own cell, and the controller is at the submission after the last one. */
  ghost predicate Told(s: State, verdicts: seq<Verdict>) {
    && |verdicts| <= |s.cells|
    && (forall c :: 0 <= c < |s.cells| ==>
          if c < |verdicts| then s.cells[c] == Holding(AnswerTo(verdicts[c], c)) else !s.cells[c].Holding?)
    && match s.controller
       case Waiting(attempt) => attempt == |verdicts|
       case Checking(attempt, cell, password) =>
         attempt == cell == |verdicts| && cell < |s.history| && s.history[cell] == Allowed(password, cell)
       case Finished(_) => true
  }

  lemma ToldStep(s: State, step: Step, verdicts: seq<Verdict>)
    requires Inv(s) && Enabled(s, step) && Told(s, verdicts)
    ensures Told(Apply(s, step), verdicts + if step.CheckStep? then [step.verdict] else [])
  {
    match step {
      case CheckStep(verdict) => ToldCheck(s, verdict, verdicts);
      case TakeStep => ToldTake(s, verdicts);
      case CancelStep => ToldFinish(s, Cancelled, verdicts);
      case _ =>
        assert verdicts + [] == verdicts;
        ToldPrompt(s, step, verdicts);
    }
  }

  lemma ToldPrompt(s: State, step: Step, verdicts: seq<Verdict>)
    requires Inv(s) && Enabled(s, step) && Told(s, verdicts) && IsPromptStep(step)
    ensures Told(Apply(s, step), verdicts)
  {
    SentIs(s, step);
    hide AnswerTo;
  }

  lemma ToldFinish(s: State, reply: Reply, verdicts: seq<Verdict>)
    requires Told(s, verdicts)
    ensures Told(Finish(s, reply), verdicts) && Told(s, verdicts + [])
    ensures verdicts + [] == verdicts
  {
    assert verdicts + [] == verdicts;
    hide AnswerTo;
  }

  lemma ToldTake(s: State, verdicts: seq<Verdict>)
    requires Inv(s) && CanTake(s) && Told(s, verdicts)
    ensures Told(Take(s), verdicts + [])
  {
    assert verdicts + [] == verdicts;
    hide AnswerTo;
  }

  lemma ToldCheck(s: State, verdict: Verdict, verdicts: seq<Verdict>)
    requires Inv(s) && Enabled(s, CheckStep(verdict)) && Told(s, verdicts)
    ensures Told(Check(s, verdict), verdicts + [verdict])
  {
    var more := verdicts + [verdict];
    var cell := s.controller.cell;
    assert forall c :: 0 <= c < |verdicts| ==> more[c] == verdicts[c];
    assert more[cell] == verdict;
  }

  lemma {:induction false} RunTells(steps: seq<Step>)
    requires Run(Initial, steps).Some?
    ensures Told(Run(Initial, steps).value, Verdicts(steps))
  {
    hide Apply, Enabled, Inv, Told;
    if steps == [] {
      NothingTold();
    } else {
      var front := steps[..|steps| - 1];
      RunTells(front);
      RunKeepsInv(front);
      ToldStep(Run(Initial, front).value, steps[|steps| - 1], Verdicts(front));
    }
  }

  lemma NothingTold()
    ensures Told(Initial, [])
  {
  }

  /**
   * The password the controller checks is the one that was typed: while it checks for the k-th
   * time, that is the password of the k-th accepted submission.
   */
  lemma CheckedAsTyped(steps: seq<Step>)
    requires Run(Initial, steps).Some? && Run(Initial, steps).value.controller.Checking?
    ensures
      var k := |Verdicts(steps)|;
      && k < |Outbox(steps)|
      && Outbox(steps)[k] == Allowed(Run(Initial, steps).value.controller.password, k)
  {
    RunTells(steps);
    OutboxIsHistory(steps);
  }

  /**
   * What the user is told: nothing before the verdict, another try after one of the first two
   * was wrong, and otherwise that the prompt is done.
   */
  lemma PollTells(steps: seq<Step>, c: nat)
    requires Run(Initial, steps).Some? && Run(Initial, steps).value.prompt == Open(Some(c))
    ensures
      var s, verdicts := Run(Initial, steps).value, Verdicts(steps);
      && Enabled(s, PollStep)
      && Poll(s).1 ==
           (if c < |verdicts| then (if verdicts[c] == Wrong && c < 2 then TryAgain else CloseWindow)
            else if s.controller.Finished? then CloseWindow
            else NothingNew)
      && Poll(s).0.prompt ==
           match Poll(s).1
           case NothingNew => Open(Some(c))
           case TryAgain => Open(None)
           case CloseWindow => Closed
  {
    RunTells(steps);
    RunKeepsInv(steps);
    hide Run, Outbox, Verdicts;
  }

  /** Prompts differ in one thing: a password typed after the controller is gone closes only a GTK prompt. */
  lemma SubmitAfterEnd(s: State, toolkit: Toolkit, password: string)
    requires s.prompt == Open(None) && s.controller.Finished?
    ensures Submit(s, toolkit, password) == if toolkit == Gtk then s.(prompt := Closed) else s
  {
  }

  // ----- how the request ends -----

  /** The reply a step brings about, after the given number of verdicts. */
  function EndedBy(s: State, step: Step, verdicts: nat): Option<Reply> {
    if s.controller.Finished? then Some(s.controller.reply)
    else
      match step
      case TakeStep =>
        if s.queue == [] then Some(AccessDenied)
        else (match s.queue[0] case Denied => Some(TemporaryLockout) case Dismissed => Some(AccessDenied) case _ => None)
      case CheckStep(Right) => Some(Unlocked)
      case CheckStep(NeedsMigration) => Some(Reply.MigrationNeeded)
      case CheckStep(Wrong) => if verdicts == 2 then Some(AccessDenied) else None
      case CancelStep => Some(Cancelled)
      case _ => None
  }

  /**
   * How the run ends the request: unlocked by a right password, denied after three wrong ones,
   * locked out by a denial, denied by a dismissal or a prompt that is gone, cancelled by the client.
   */
  function EndOf(steps: seq<Step>): Option<Reply>
    requires Run(Initial, steps).Some?
    decreases |steps|
  {
    if steps == [] then None
    else
      var front := steps[..|steps| - 1];
      var before := EndOf(front);
      if before.Some? then before
      else EndedBy(Run(Initial, front).value, steps[|steps| - 1], |Verdicts(front)|)
  }

  lemma EndedByIs(s: State, step: Step, verdicts: seq<Verdict>)
    requires Inv(s) && Enabled(s, step) && Told(s, verdicts)
    ensures match EndedBy(s, step, |verdicts|)
      case Some(reply) => Apply(s, step).controller == Finished(reply)
      case None => !Apply(s, step).controller.Finished?
  {
  }

  lemma {:induction false} EndIsReply(steps: seq<Step>)
    requires Run(Initial, steps).Some?
    ensures match EndOf(steps)
      case Some(reply) => Run(Initial, steps).value.controller == Finished(reply)
      case None => !Run(Initial, steps).value.controller.Finished?
  {
    hide Apply, Enabled, Inv, Told, EndedBy;
    if steps != [] {
      var front := steps[..|steps| - 1];
      EndIsReply(front);
      RunTells(front);
      RunKeepsInv(front);
      EndedByIs(Run(Initial, front).value, steps[|steps| - 1], Verdicts(front));
      EndedStays(Run(Initial, front).value, steps[|steps| - 1], |Verdicts(front)|);
    }
  }

  lemma EndedStays(s: State, step: Step, verdicts: nat)
    ensures s.controller.Finished? ==> EndedBy(s, step, verdicts) == Some(s.controller.reply)
  {
  }

  // ----- the controller's loop -----

  /** One request, shared by its prompt and its controller. */
  class Session {
    var state: State
    ghost var steps: seq<Step>   // everything that has happened

    constructor ()
      ensures Valid() && state == Initial && steps == []
    {
      state, steps := Initial, [];
    }

    ghost predicate Valid()
      reads this
    {
      Run(Initial, steps) == Some(state)
    }

    method Take(step: Step)
      requires Valid() && Enabled(state, step)
      modifies this
      ensures Valid() && state == Apply(old(state), step) && steps == old(steps) + [step]
    {
      assert (steps + [step])[..|steps|] == steps;
      state, steps := Apply(state, step), steps + [step];
    }

    /** The prompt's side takes any steps it can, any number of them, whatever toolkit shows it. */
    method PromptActs()
      requires Valid()
      modifies this
      ensures Valid() && state.controller == old(state).controller
      ensures CanTake(old(state)) ==> CanTake(state)
    {
      hide Apply, Enabled, Run, CanTake;
      var times: nat :| true;
      for i := 0 to times
        invariant Valid() && state.controller == old(state).controller
        invariant CanTake(old(state)) ==> CanTake(state)
      {
        var step: Step := *;
        if IsPromptStep(step) && Enabled(state, step) {
          PromptKeepsController(state, step);
          Take(step);
        }
      }
    }
  }

  predicate IsPromptStep(step: Step) {
    step.SubmitStep? || step.CloseStep? || step.VanishStep? || step.PollStep?
  }

  lemma PromptKeepsController(s: State, step: Step)
    requires Enabled(s, step) && IsPromptStep(step)
    ensures Apply(s, step).controller == s.controller
    ensures CanTake(s) ==> CanTake(Apply(s, step))
  {
  }

  method NextVerdict() returns (verdict: Verdict) {
    verdict := *;
  }

  /** What is known of a session when the controller waits for its next outcome. */
  lemma RunFacts(steps: seq<Step>)
    requires Run(Initial, steps).Some?
    ensures var s := Run(Initial, steps).value; Inv(s) && s.tried <= MAX_GUI_PASSWORD_ATTEMPTS
    ensures var s := Run(Initial, steps).value;
      s.controller.Checking? ==> Enabled(s, CheckStep(Right)) && s.controller.cell == s.controller.attempt
  {
    RunKeepsInv(steps);
  }

  /**
   * The controller: up to three rounds of taking an outcome and answering it, while the prompt
   * acts freely in between and the client may hang up at any wait. It returns the reply with
   * which the run of all that happened ends the request.
   */
  method UnlockGuiWithPrompt(session: Session) returns (reply: Reply)
    requires session.Valid() && session.state.controller == Waiting(0)
    modifies session
    ensures session.Valid() && EndOf(session.steps) == Some(reply)
    ensures session.state.tried <= MAX_GUI_PASSWORD_ATTEMPTS
  {
    hide Inv, Run, Apply, Take, Check, Cancel, EndOf;
    for attempt := 0 to MAX_GUI_PASSWORD_ATTEMPTS
      invariant attempt < MAX_GUI_PASSWORD_ATTEMPTS
      invariant session.Valid() && session.state.controller == Waiting(attempt)
    {
      session.PromptActs();
      RunFacts(session.steps);
      var hungUp: bool := *;
      if hungUp || !CanTake(session.state) {
        CancelFinishes(session.state);
        session.Take(CancelStep);
        Ends(session.steps, Cancelled);
        return Cancelled;
      }
      TakeLeads(session.state);
      var outcome := if session.state.queue == [] then Dismissed else session.state.queue[0];
      session.Take(TakeStep);
      match outcome {
        case Denied =>
          Ends(session.steps, TemporaryLockout);
          return TemporaryLockout;
        case Dismissed =>
          Ends(session.steps, AccessDenied);
          return AccessDenied;
        case Allowed(_, _) =>
          session.PromptActs();
          RunFacts(session.steps);
          hungUp := *;
          if hungUp {
            CancelFinishes(session.state);
            session.Take(CancelStep);
            Ends(session.steps, Cancelled);
            return Cancelled;
          }
          var verdict := NextVerdict();
          CheckLeads(session.state, verdict);
          session.Take(CheckStep(verdict));
          match verdict {
            case Right =>
              Ends(session.steps, Unlocked);
              return Unlocked;
            case NeedsMigration =>
              Ends(session.steps, Reply.MigrationNeeded);
              return Reply.MigrationNeeded;
            case Wrong =>
              if attempt + 1 == MAX_GUI_PASSWORD_ATTEMPTS {
                Ends(session.steps, AccessDenied);
                return AccessDenied;
              }
          }
      }
    }
    assert false;
  }

  lemma Ends(steps: seq<Step>, reply: Reply)
    requires Run(Initial, steps).Some? && Run(Initial, steps).value.controller == Finished(reply)
    ensures EndOf(steps) == Some(reply)
    ensures Run(Initial, steps).value.tried <= MAX_GUI_PASSWORD_ATTEMPTS
  {
    EndIsReply(steps);
    RunFacts(steps);
  }

  lemma CancelFinishes(s: State)
    requires s.ReceiverAlive()
    ensures Enabled(s, CancelStep) && Apply(s, CancelStep).controller == Finished(Cancelled)
  {
  }

  lemma TakeLeads(s: State)
    requires Inv(s) && CanTake(s)
    ensures Enabled(s, TakeStep)
    ensures
      var after := Apply(s, TakeStep).controller;
      if s.queue == [] then after == Finished(AccessDenied)
      else match s.queue[0]
           case Allowed(password, cell) => after == Checking(s.controller.attempt, cell, password)
           case Denied => after == Finished(TemporaryLockout)
           case Dismissed => after == Finished(AccessDenied)
  {
  }

  lemma CheckLeads(s: State, verdict: Verdict)
    requires Inv(s) && s.controller.Checking?
    ensures Enabled(s, CheckStep(verdict))
    ensures
      var after := Apply(s, CheckStep(verdict)).controller;
      match verdict
      case Right => after == Finished(Unlocked)
      case NeedsMigration => after == Finished(Reply.MigrationNeeded)
      case Wrong =>
        after ==
          if s.controller.attempt + 1 < MAX_GUI_PASSWORD_ATTEMPTS then Waiting(s.controller.attempt + 1)
          else Finished(AccessDenied)
  {
  }
}
