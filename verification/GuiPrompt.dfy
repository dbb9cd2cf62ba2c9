/**
 * The GUI unlock protocol. A prompt on the user-interface thread sends outcomes over an
 * unbounded queue; a controller on the server takes them, tries passwords and answers each
 * through a one-shot feedback cell. `State` is one request with both parties; either may take
 * a step at any time.
 */
module GuiPrompt {
  import opened Wrappers

  const MAX_GUI_PASSWORD_ATTEMPTS: nat := 3

  type CellId = nat

  datatype Outcome = Allowed(password: string, cell: CellId) | Denied | Dismissed

  datatype Feedback = Incorrect | Complete

  /** A one-shot cell: awaiting its answer, holding it, or abandoned by the answering side. */
  datatype Cell = Awaiting | Holding(feedback: Feedback) | Abandoned

  datatype Prompt = Open(awaiting: Option<CellId>) | Closed

  datatype Reply = Unlocked | MigrationNeeded | AccessDenied | TemporaryLockout | Cancelled

  datatype Controller =
    | Waiting(attempt: nat)
    | Checking(attempt: nat, cell: CellId, password: string)
    | Finished(reply: Reply)

  datatype State = State(
    prompt: Prompt,
    controller: Controller,
    queue: seq<Outcome>,      // sent and not taken yet
    history: seq<Outcome>,    // everything ever sent
    cells: seq<Cell>,         // one per submission, in order
    taken: nat,               // outcomes the controller has taken
    tried: nat,               // passwords the controller has taken
    answers: seq<nat>)        // how often each submission was answered
  {
    predicate ReceiverAlive() {
      !controller.Finished?
    }
  }

  const Initial := State(Open(None), Waiting(0), [], [], [], 0, 0, [])

  // ----- steps of the prompt -----

  /** Toolkits differ in what happens to a prompt whose controller is gone. */
  datatype Toolkit = Qt | Gtk

  function Send(s: State, outcome: Outcome): State {
    if s.ReceiverAlive() then s.(queue := s.queue + [outcome], history := s.history + [outcome]) else s
  }

  /** Submitting a password; ignored while an earlier one is not answered yet. */
  function Submit(s: State, toolkit: Toolkit, password: string): State {
    if s.prompt.Closed? || s.prompt.awaiting.Some? then s
    else if !s.ReceiverAlive() then
      if toolkit == Gtk then s.(prompt := Closed) else s
    else
      var cell := |s.cells|;
      Send(s, Allowed(password, cell)).(
        prompt := Open(Some(cell)), cells := s.cells + [Awaiting], answers := s.answers + [0])
  }

  /** Denying or dismissing closes the prompt, also while a password is being checked. */
  function Close(s: State, outcome: Outcome): State
    requires outcome == Denied || outcome == Dismissed
  {
    if s.prompt.Closed? then s else Send(s, outcome).(prompt := Closed)
  }

  /** The prompt disappears without a word: its sender is dropped. */
  function Vanish(s: State): State {
    s.(prompt := Closed)
  }

  datatype PollResult = NothingNew | TryAgain | CloseWindow

  function Poll(s: State): (State, PollResult)
    requires s.prompt.Open? && s.prompt.awaiting.Some? ==> s.prompt.awaiting.value < |s.cells|
  {
    if s.prompt.Closed? then (s, CloseWindow)
    else if s.prompt.awaiting.None? then (s, NothingNew)
    else
      match s.cells[s.prompt.awaiting.value]
      case Awaiting => (s, NothingNew)
      case Holding(Incorrect) => (s.(prompt := Open(None)), TryAgain)
      case Holding(Complete) => (s.(prompt := Closed), CloseWindow)
      case Abandoned => (s.(prompt := Closed), CloseWindow)
  }

  // ----- steps of the controller -----

  /** Cells of submissions that nobody will answer any more. */
  function Abandon(cells: seq<Cell>): (r: seq<Cell>)
    ensures |r| == |cells|
    ensures forall i :: 0 <= i < |cells| ==> r[i] == if cells[i] == Awaiting then Abandoned else cells[i]
  {
    seq(|cells|, i requires 0 <= i < |cells| => if cells[i] == Awaiting then Abandoned else cells[i])
  }

  /** Finishing drops the receiver, and with it every outcome still queued. */
  function Finish(s: State, reply: Reply): State {
    s.(controller := Finished(reply), queue := [], cells := Abandon(s.cells))
  }

  predicate CanTake(s: State) {
    s.controller.Waiting? && (s.queue != [] || s.prompt.Closed?)
  }

  /** Takes the next outcome; a prompt that is gone counts as dismissed. */
  function Take(s: State): State
    requires CanTake(s)
  {
    if s.queue == [] then Finish(s, AccessDenied)
    else
      var rest := s.(queue := s.queue[1..], taken := s.taken + 1);
      match s.queue[0]
      case Allowed(password, cell) =>
        rest.(controller := Checking(s.controller.attempt, cell, password), tried := s.tried + 1)
      case Denied => Finish(rest, TemporaryLockout)
      case Dismissed => Finish(rest, AccessDenied)
  }

  datatype Verdict = Right | Wrong | NeedsMigration

  function Answer(s: State, cell: CellId, feedback: Feedback): State
    requires cell < |s.cells| && cell < |s.answers|
  {
    s.(cells := s.cells[cell := Holding(feedback)], answers := s.answers[cell := s.answers[cell] + 1])
  }

  function Check(s: State, verdict: Verdict): State
    requires s.controller.Checking? && s.controller.cell < |s.cells| && s.controller.cell < |s.answers|
  {
    var attempt, cell := s.controller.attempt, s.controller.cell;
    match verdict
    case Right => Finish(Answer(s, cell, Complete), Unlocked)
    case NeedsMigration => Finish(Answer(s, cell, Complete), Reply.MigrationNeeded)
    case Wrong =>
      if attempt + 1 < MAX_GUI_PASSWORD_ATTEMPTS
      then Answer(s, cell, Incorrect).(controller := Waiting(attempt + 1))
      else Finish(Answer(s, cell, Complete), AccessDenied)
  }

  /** The client hangs up. */
  function Cancel(s: State): State {
    if s.ReceiverAlive() then Finish(s, Cancelled) else s
  }

  // ----- the protocol -----

  datatype Step =
    | SubmitStep(toolkit: Toolkit, password: string)
    | CloseStep(outcome: Outcome)
    | VanishStep
    | PollStep
    | TakeStep
    | CheckStep(verdict: Verdict)
    | CancelStep

  predicate Enabled(s: State, step: Step) {
    match step
    case SubmitStep(_, _) => true
    case CloseStep(outcome) => outcome == Denied || outcome == Dismissed
    case VanishStep => true
    case PollStep => s.prompt.Open? && s.prompt.awaiting.Some? ==> s.prompt.awaiting.value < |s.cells|
    case TakeStep => CanTake(s)
    case CheckStep(_) => s.controller.Checking? && s.controller.cell < |s.cells| && s.controller.cell < |s.answers|
    case CancelStep => true
  }

  function Apply(s: State, step: Step): State
    requires Enabled(s, step)
  {
    match step
    case SubmitStep(toolkit, password) => Submit(s, toolkit, password)
    case CloseStep(outcome) => Close(s, outcome)
    case VanishStep => Vanish(s)
    case PollStep => Poll(s).0
    case TakeStep => Take(s)
    case CheckStep(verdict) => Check(s, verdict)
    case CancelStep => Cancel(s)
  }

  /** The state after any interleaving of steps, or `None` if one was not enabled. */
  function Run(s: State, steps: seq<Step>): Option<State> {
    if steps == [] then Some(s)
    else
      match Run(s, steps[..|steps| - 1])
      case None => None
      case Some(t) =>
        if Enabled(t, steps[|steps| - 1]) then Some(Apply(t, steps[|steps| - 1])) else None
  }

  predicate IsLast(outcome: Outcome) {
    outcome == Denied || outcome == Dismissed
  }

  // ----- what holds in every state -----

  /** Submissions carry their cells in order, and nothing follows a denial or dismissal. */
  ghost predicate HistoryInOrder(s: State) {
    && (forall i :: 0 <= i < |s.history| ==>
          if i < |s.cells| then s.history[i].Allowed? && s.history[i].cell == i else IsLast(s.history[i]))
    && |s.cells| <= |s.history| <= |s.cells| + 1
    && (|s.history| > |s.cells| ==> s.prompt.Closed?)
  }

  /** What the controller has taken, and how many of that were passwords. */
  ghost predicate TakenInOrder(s: State) {
    && s.taken <= |s.history|
    && s.tried == (if s.taken <= |s.cells| then s.taken else |s.cells|) <= MAX_GUI_PASSWORD_ATTEMPTS
  }

  /** A submission is answered once when it has been checked, and otherwise not at all. */
  ghost predicate AnsweredOnce(s: State) {
    && |s.answers| == |s.cells|
    && forall c :: 0 <= c < |s.cells| ==>
         && s.answers[c] == (if s.cells[c].Holding? then 1 else 0)
         && (s.cells[c].Holding? ==> c < s.taken)
  }

  /** While the controller runs, its queue is what it has not taken, and no cell is given up. */
  ghost predicate Alive(s: State) {
    && s.taken <= |s.history| && s.queue == s.history[s.taken..]
    && forall c :: 0 <= c < |s.cells| ==> s.cells[c] == Awaiting || s.cells[c] == Holding(Incorrect)
  }

  ghost predicate ControllerInStep(s: State) {
    match s.controller
    case Waiting(attempt) =>
      && Alive(s)
      && attempt == s.taken < MAX_GUI_PASSWORD_ATTEMPTS && s.taken <= |s.cells|
      && (forall c :: 0 <= c < s.taken ==> s.cells[c].Holding?)
    case Checking(attempt, cell, password) =>
      && Alive(s)
      && attempt == cell && cell < |s.history| && s.history[cell] == Allowed(password, cell) && cell + 1 == s.taken <= MAX_GUI_PASSWORD_ATTEMPTS && s.taken <= |s.cells|
      && (forall c :: 0 <= c < cell ==> s.cells[c].Holding?) && s.cells[cell] == Awaiting
    case Finished(_) =>
      s.queue == [] && forall c :: 0 <= c < |s.cells| ==> s.cells[c] != Awaiting
  }

  /** The prompt waits for its latest submission only, and has seen the answers to all others. */
  ghost predicate PromptInStep(s: State) {
    && (s.prompt.Open? && s.prompt.awaiting.Some? ==> s.prompt.awaiting.value + 1 == |s.cells|)
    && (s.prompt.Open? && s.prompt.awaiting.None? ==>
          forall c :: 0 <= c < |s.cells| ==> s.cells[c] == Holding(Incorrect))
    && (forall c :: 0 <= c < |s.cells| - 1 ==> s.cells[c] == Holding(Incorrect))
  }

  ghost predicate Inv(s: State) {
    HistoryInOrder(s) && TakenInOrder(s) && AnsweredOnce(s) && ControllerInStep(s) && PromptInStep(s)
  }

  lemma SubmitKeepsInv(s: State, toolkit: Toolkit, password: string)
    requires Inv(s)
    ensures Inv(Submit(s, toolkit, password))
    ensures toolkit == Qt ==> Submit(s, toolkit, password).prompt.Open? == s.prompt.Open?
    ensures Submit(s, toolkit, password).controller == s.controller
  {
  }

  lemma CloseKeepsInv(s: State, outcome: Outcome)
    requires Inv(s) && IsLast(outcome)
    ensures Inv(Close(s, outcome)) && Close(s, outcome).prompt.Closed?
    ensures Close(s, outcome).controller == s.controller
  {
    CloseKeepsHistory(s, outcome);
    CloseKeepsController(s, outcome);
    CloseKeepsBooks(s, outcome);
    hide HistoryInOrder, TakenInOrder, AnsweredOnce, ControllerInStep, PromptInStep;
  }

  lemma CloseKeepsHistory(s: State, outcome: Outcome)
    requires HistoryInOrder(s) && IsLast(outcome)
    ensures HistoryInOrder(Close(s, outcome))
  {
  }

  lemma CloseKeepsController(s: State, outcome: Outcome)
    requires ControllerInStep(s) && IsLast(outcome)
    ensures ControllerInStep(Close(s, outcome))
  {
    if s.prompt.Open? && s.ReceiverAlive() {
      assert s.history[s.taken..] + [outcome] == (s.history + [outcome])[s.taken..];
    }
  }

  lemma CloseKeepsBooks(s: State, outcome: Outcome)
    requires TakenInOrder(s) && AnsweredOnce(s) && PromptInStep(s) && IsLast(outcome)
    ensures var t := Close(s, outcome); TakenInOrder(t) && AnsweredOnce(t) && PromptInStep(t)
  {
  }

  lemma VanishKeepsInv(s: State)
    requires Inv(s)
    ensures Inv(Vanish(s)) && Vanish(s).prompt.Closed?
  {
  }

  lemma PollKeepsInv(s: State)
    requires Inv(s)
    ensures Inv(Poll(s).0)
    ensures Poll(s).0.prompt.Closed? <==> Poll(s).1 == CloseWindow
    ensures Poll(s).0.controller == s.controller
  {
  }

  /** Finishing needs no more than orderly bookkeeping up to that point. */
  lemma FinishKeepsInv(s: State, reply: Reply)
    requires HistoryInOrder(s) && TakenInOrder(s) && AnsweredOnce(s) && PromptInStep(s)
    ensures Inv(Finish(s, reply))
  {
  }

  lemma TakeKeepsInv(s: State)
    requires Inv(s) && CanTake(s)
    ensures Inv(Take(s))
  {
    if s.queue == [] {
      FinishKeepsInv(s, AccessDenied);
    } else {
      var rest := s.(queue := s.queue[1..], taken := s.taken + 1);
      assert s.queue[0] == s.history[s.taken];
      match s.queue[0] {
        case Allowed(_, cell) =>
          assert s.history[s.taken..][1..] == s.history[s.taken + 1..];
        case Denied => FinishKeepsInv(rest, TemporaryLockout);
        case Dismissed => FinishKeepsInv(rest, AccessDenied);
      }
    }
  }

  lemma AnswerKeepsBooks(s: State, feedback: Feedback)
    requires Inv(s) && s.controller.Checking?
    requires feedback == Incorrect || s.controller.cell + 1 == |s.cells|
    ensures
      var t := Answer(s, s.controller.cell, feedback);
      HistoryInOrder(t) && TakenInOrder(t) && AnsweredOnce(t) && PromptInStep(t)
  {
  }

  lemma CheckKeepsInv(s: State, verdict: Verdict)
    requires Inv(s) && s.controller.Checking?
    ensures Inv(Check(s, verdict))
  {
    var cell := s.controller.cell;
    assert cell + 1 == |s.cells|;
    match verdict {
      case Right =>
        AnswerKeepsBooks(s, Complete);
        FinishKeepsInv(Answer(s, cell, Complete), Unlocked);
      case NeedsMigration =>
        AnswerKeepsBooks(s, Complete);
        FinishKeepsInv(Answer(s, cell, Complete), Reply.MigrationNeeded);
      case Wrong =>
        if s.controller.attempt + 1 < MAX_GUI_PASSWORD_ATTEMPTS {
          AnswerKeepsBooks(s, Incorrect);
        } else {
          AnswerKeepsBooks(s, Complete);
          FinishKeepsInv(Answer(s, cell, Complete), AccessDenied);
        }
    }
  }

  lemma CancelKeepsInv(s: State)
    requires Inv(s)
    ensures Inv(Cancel(s))
  {
    if s.ReceiverAlive() {
      FinishKeepsInv(s, Cancelled);
    }
  }

  lemma StepKeepsInv(s: State, step: Step)
    requires Inv(s) && Enabled(s, step)
    ensures Inv(Apply(s, step))
  {
    hide Inv, Submit, Close, Vanish, Poll, Take, Check, Cancel;
    match step {
      case SubmitStep(toolkit, password) => SubmitKeepsInv(s, toolkit, password);
      case CloseStep(outcome) => CloseKeepsInv(s, outcome);
      case VanishStep => VanishKeepsInv(s);
      case PollStep => PollKeepsInv(s);
      case TakeStep => TakeKeepsInv(s);
      case CheckStep(verdict) => CheckKeepsInv(s, verdict);
      case CancelStep => CancelKeepsInv(s);
    }
  }

  // ----- every run -----

  function Total(answers: seq<nat>): nat {
    if answers == [] then 0 else Total(answers[..|answers| - 1]) + answers[|answers| - 1]
  }

  /** How many passwords were checked in a run. */
  function Checks(steps: seq<Step>): nat {
    if steps == [] then 0 else Checks(steps[..|steps| - 1]) + if steps[|steps| - 1].CheckStep? then 1 else 0
  }

  lemma {:induction false} TotalAfterAnswer(answers: seq<nat>, c: nat)
    requires c < |answers|
    ensures Total(answers[c := answers[c] + 1]) == Total(answers) + 1
    decreases |answers|
  {
    var after := answers[c := answers[c] + 1];
    if c == |answers| - 1 {
      assert after[..c] == answers[..c];
    } else {
      assert after[..|after| - 1] == answers[..|answers| - 1][c := answers[c] + 1];
      TotalAfterAnswer(answers[..|answers| - 1], c);
    }
  }

  lemma StepTotal(s: State, step: Step)
    requires Enabled(s, step)
    ensures Total(Apply(s, step).answers) == Total(s.answers) + (if step.CheckStep? then 1 else 0)
  {
    match step {
      case SubmitStep(_, _) =>
        assert (s.answers + [0])[..|s.answers|] == s.answers;
      case CheckStep(_) =>
        TotalAfterAnswer(s.answers, s.controller.cell);
      case _ =>
    }
  }

  lemma {:induction false} RunKeepsInv(steps: seq<Step>)
    requires Run(Initial, steps).Some?
    ensures Inv(Run(Initial, steps).value)
    ensures Total(Run(Initial, steps).value.answers) == Checks(steps)
  {
    hide Apply, Enabled;
    if steps == [] {
      assert Inv(Initial);
    } else {
      RunKeepsInv(steps[..|steps| - 1]);
      var before, step := Run(Initial, steps[..|steps| - 1]).value, steps[|steps| - 1];
      StepKeepsInv(before, step);
      StepTotal(before, step);
    }
  }

  /**
   * In every interleaving: at most three passwords are tried, at most one submission waits
   * for feedback, every checked submission is answered exactly once, and nothing follows a
   * denial or a dismissal in the prompt's outcomes.
   */
  lemma {:induction false} ProtocolSafety(steps: seq<Step>)
    requires Run(Initial, steps).Some?
    ensures
      var s := Run(Initial, steps).value;
      && s.tried <= MAX_GUI_PASSWORD_ATTEMPTS
      && |s.answers| == |s.cells|
      && (forall c, d :: 0 <= c < d < |s.cells| ==> s.cells[c] != Awaiting || s.cells[d] != Awaiting)
      && (forall c :: 0 <= c < |s.cells| ==> s.answers[c] == if s.cells[c].Holding? then 1 else 0)
      && Checks(steps) == Total(s.answers)
      && (forall i :: 0 <= i < |s.history| - 1 ==> !IsLast(s.history[i]))
  {
    RunKeepsInv(steps);
  }

  /**
   * A user who waits for an answer is never forgotten: as long as the answer is outstanding
   * the controller has something to do that leads to it.
   */
  lemma WaitingPromptIsServed(steps: seq<Step>)
    requires Run(Initial, steps).Some?
    requires
      var s := Run(Initial, steps).value;
      s.prompt.Open? && s.prompt.awaiting.Some? && s.prompt.awaiting.value < |s.cells| <= |s.history|
      && s.cells[s.prompt.awaiting.value] == Awaiting
    ensures
      var s := Run(Initial, steps).value;
      var cell := s.prompt.awaiting.value;
      || (s.history[cell].Allowed? && s.controller == Checking(cell, cell, s.history[cell].password))
      || (CanTake(s) && cell < |s.history| && s.queue == [s.history[cell]] && s.history[cell].Allowed? && s.history[cell].cell == cell)
  {
    RunKeepsInv(steps);
    var s := Run(Initial, steps).value;
    var cell := s.prompt.awaiting.value;
    assert s.history[cell].Allowed?;
    if s.controller.Waiting? {
      assert s.taken == cell;
      assert |s.history| == cell + 1;
    }
  }

  // ----- the Qt prompts of several requests -----

  const MAX_ID: nat := 0xFFFF_FFFF

  function NextId(id: nat): nat {
    if id >= MAX_ID then 1 else id + 1
  }

  /** Ids and requests correspond one to one, and exactly the open prompts are pending. */
  ghost predicate PromptsMatch(sessions: seq<State>, pending: map<nat, nat>) {
    && (forall id :: id in pending ==> 1 <= id <= MAX_ID && pending[id] < |sessions|)
    && (forall a, b :: a in pending && b in pending && pending[a] == pending[b] ==> a == b)
    && (forall id :: id in pending ==> sessions[pending[id]].prompt.Open?)
    && (forall k :: 0 <= k < |sessions| && sessions[k].prompt.Open? ==> k in pending.Values)
  }

  ghost predicate AllInv(sessions: seq<State>) {
    forall k :: 0 <= k < |sessions| ==> Inv(sessions[k])
  }

  lemma PromptsUpdated(sessions: seq<State>, pending: map<nat, nat>, k: nat, s: State)
    requires PromptsMatch(sessions, pending) && AllInv(sessions)
    requires k < |sessions| && Inv(s) && s.prompt.Open? == sessions[k].prompt.Open?
    ensures PromptsMatch(sessions[k := s], pending) && AllInv(sessions[k := s])
  {
    hide Inv;
  }

  lemma PromptsClosed(sessions: seq<State>, pending: map<nat, nat>, id: nat, s: State)
    requires PromptsMatch(sessions, pending) && AllInv(sessions)
    requires id in pending && Inv(s) && s.prompt.Closed?
    ensures pending[id] < |sessions|
    ensures PromptsMatch(sessions[pending[id] := s], pending - {id}) && AllInv(sessions[pending[id] := s])
    ensures (pending - {id}).Values == pending.Values - {pending[id]}
  {
    hide Inv;
    var rest := pending - {id};
    forall k | k in pending.Values - {pending[id]}
      ensures k in rest.Values
    {
      var other :| other in pending && pending[other] == k;
      assert other in rest && rest[other] == k;
    }
  }

  lemma PromptsOpened(sessions: seq<State>, pending: map<nat, nat>, id: nat, request: State)
    requires PromptsMatch(sessions, pending) && AllInv(sessions)
    requires id !in pending && 1 <= id <= MAX_ID && Inv(request) && request.prompt.Open?
    ensures PromptsMatch(sessions + [request], pending[id := |sessions|]) && AllInv(sessions + [request])
  {
    hide Inv;
    var more := pending[id := |sessions|];
    forall k | 0 <= k <= |sessions| && (sessions + [request])[k].prompt.Open?
      ensures k in more.Values
    {
      if k == |sessions| {
        assert more[id] == k;
      } else {
        var other :| other in pending && pending[other] == k;
        assert more[other] == k;
      }
    }
  }

  lemma PendingPrompt(sessions: seq<State>, pending: map<nat, nat>, id: nat)
    requires PromptsMatch(sessions, pending) && AllInv(sessions) && id in pending
    ensures pending[id] < |sessions| && Inv(sessions[pending[id]]) && sessions[pending[id]].prompt.Open?
    ensures Enabled(sessions[pending[id]], PollStep)
  {
  }

  /** Requests that wait for their prompt: nothing has happened on the prompt's side yet. */
  ghost predicate NotShown(arrivals: seq<State>) {
    forall k :: 0 <= k < |arrivals| ==> Inv(arrivals[k]) && arrivals[k].prompt == Open(None)
  }

  function AllDismissed(arrivals: seq<State>): (closed: seq<State>)
    ensures |closed| == |arrivals|
    ensures forall k :: 0 <= k < |arrivals| ==> closed[k] == Close(arrivals[k], Dismissed)
  {
    seq(|arrivals|, k requires 0 <= k < |arrivals| => Close(arrivals[k], Dismissed))
  }

  /** Every pending prompt was dismissed, and the requests of no other were touched. */
  ghost predicate PendingDismissed(before: seq<State>, pending: map<nat, nat>, after: seq<State>) {
    && |after| == |before|
    && forall k :: 0 <= k < |before| ==>
         after[k] == if k in pending.Values then Close(before[k], Dismissed) else before[k]
  }

  lemma NoneOpen(sessions: seq<State>, pending: map<nat, nat>)
    requires PromptsMatch(sessions, pending) && pending == map[]
    ensures forall k :: 0 <= k < |sessions| ==> sessions[k].prompt.Closed?
  {
    assert pending.Values == {};
  }

  lemma ClosedAdded(sessions: seq<State>, pending: map<nat, nat>, s: State)
    requires PromptsMatch(sessions, pending) && AllInv(sessions) && Inv(s) && s.prompt.Closed?
    ensures PromptsMatch(sessions + [s], pending) && AllInv(sessions + [s])
  {
    hide Inv;
  }

  /**
   * The Qt side: the requests that have arrived, and the open prompts by id, each belonging to
   * one request. Requests are only ever touched through their own prompt.
   */
  class QtPromptState {
    var arrivals: seq<State>
    var sessions: seq<State>
    var pending: map<nat, nat>
    var nextId: nat

    constructor ()
      ensures Valid() && arrivals == [] && sessions == [] && pending == map[] && nextId == 1
    {
      arrivals, sessions, pending, nextId := [], [], map[], 1;
    }

    ghost predicate Valid()
      reads this
    {
      && 1 <= nextId <= MAX_ID && PromptsMatch(sessions, pending) && AllInv(sessions)
      && NotShown(arrivals)
    }

    ghost predicate Has(id: nat)
      reads this
    {
      id in pending && pending[id] < |sessions|
    }

    /** A request arrives from its controller. */
    method Arrive(request: State)
      requires Valid() && Inv(request) && request.prompt == Open(None)
      modifies this`arrivals
      ensures Valid() && arrivals == old(arrivals) + [request]
    {
      hide Inv, AllInv, PromptsMatch;
      arrivals := arrivals + [request];
    }

    /**
     * Shows the prompt of the request that has waited longest, if there is one. Should its id
     * still be in use, the old prompt vanishes.
     */
    method PollPrompt() returns (shown: bool)
      requires Valid()
      modifies this
      ensures Valid()
      ensures shown == (old(arrivals) != [])
      ensures !shown ==>
        arrivals == old(arrivals) && sessions == old(sessions) && pending == old(pending) && nextId == old(nextId)
      ensures shown ==>
        var id, request := old(nextId), old(arrivals)[0];
        && arrivals == old(arrivals)[1..] && nextId == NextId(id)
        && pending == old(pending)[id := |old(sessions)|]
        && (old(Has(nextId)) ==>
              sessions == old(sessions)[old(pending)[id] := Vanish(old(sessions)[old(pending)[id]])] + [request])
        && (id !in old(pending) ==> sessions == old(sessions) + [request])
    {
      hide Inv, AllInv, PromptsMatch, Vanish;
      if arrivals == [] {
        return false;
      }
      shown := true;
      var request := arrivals[0];
      arrivals := arrivals[1..];
      var id := nextId;
      nextId := NextId(nextId);
      if id in pending {
        PendingPrompt(sessions, pending, id);
        var k := pending[id];
        VanishKeepsInv(sessions[k]);
        PromptsClosed(sessions, pending, id, Vanish(sessions[k]));
        sessions, pending := sessions[k := Vanish(sessions[k])], pending - {id};
      }
      PromptsOpened(sessions, pending, id, request);
      sessions, pending := sessions + [request], pending[id := |sessions|];
      assert pending == old(pending)[id := |old(sessions)|];
    }

    method Allow(id: nat, password: string)
      requires Valid()
      modifies this`sessions
      ensures Valid()
      ensures Has(id) ==>
        sessions == old(sessions)[pending[id] := Submit(old(sessions)[pending[id]], Qt, password)]
      ensures id !in pending ==> sessions == old(sessions)
    {
      hide Inv, AllInv, PromptsMatch, Submit;
      if id in pending {
        PendingPrompt(sessions, pending, id);
        SubmitKeepsInv(sessions[pending[id]], Qt, password);
        PromptsUpdated(sessions, pending, pending[id], Submit(sessions[pending[id]], Qt, password));
        sessions := sessions[pending[id] := Submit(sessions[pending[id]], Qt, password)];
      }
    }

    /** Denying (or dismissing) takes the prompt down and sends one last outcome. */
    method CloseWith(id: nat, outcome: Outcome)
      requires Valid() && IsLast(outcome)
      modifies this`sessions, this`pending
      ensures Valid()
      ensures pending == old(pending) - {id}
      ensures old(Has(id)) ==>
        && sessions == old(sessions)[old(pending)[id] := Close(old(sessions)[old(pending)[id]], outcome)]
        && pending.Values == old(pending).Values - {old(pending)[id]}
      ensures id !in old(pending) ==> sessions == old(sessions)
    {
      hide Inv, AllInv, PromptsMatch, Close;
      if id in pending {
        PendingPrompt(sessions, pending, id);
        var k := pending[id];
        CloseKeepsInv(sessions[k], outcome);
        PromptsClosed(sessions, pending, id, Close(sessions[k], outcome));
        sessions, pending := sessions[k := Close(sessions[k], outcome)], pending - {id};
      }
    }

    /** 0: nothing new, 1: try again, 2: close the window. */
    method Feedback(id: nat) returns (code: int)
      requires Valid()
      modifies this`sessions, this`pending
      ensures Valid()
      ensures id !in old(pending) ==> code == 2 && sessions == old(sessions) && pending == old(pending)
      ensures old(Has(id)) ==>
        && Enabled(old(sessions)[old(pending)[id]], PollStep)
        && var polled := Poll(old(sessions)[old(pending)[id]]);
           && sessions == old(sessions)[old(pending)[id] := polled.0]
           && code == (match polled.1 case NothingNew => 0 case TryAgain => 1 case CloseWindow => 2)
           && pending == if code == 2 then old(pending) - {id} else old(pending)
    {
      hide Inv, AllInv, PromptsMatch, Poll;
      if id !in pending {
        return 2;
      }
      PendingPrompt(sessions, pending, id);
      var k := pending[id];
      PollKeepsInv(sessions[k]);
      var polled := Poll(sessions[k]);
      if polled.1 == CloseWindow {
        PromptsClosed(sessions, pending, id, polled.0);
        pending := pending - {id};
        code := 2;
      } else {
        PromptsUpdated(sessions, pending, k, polled.0);
        code := if polled.1 == TryAgain then 1 else 0;
      }
      sessions := sessions[k := polled.0];
    }

    /** Dismisses every open prompt, in any order, and every request that was never shown. */
    method DenyAll()
      requires Valid()
      modifies this`arrivals, this`sessions, this`pending
      ensures Valid() && pending == map[] && arrivals == []
      ensures |sessions| == |old(sessions)| + |old(arrivals)|
      ensures PendingDismissed(old(sessions), old(pending), sessions[..|old(sessions)|])
      ensures sessions[|old(sessions)|..] == AllDismissed(old(arrivals))
      ensures forall k :: 0 <= k < |sessions| ==> sessions[k].prompt.Closed?
    {
      hide Inv, AllInv, PromptsMatch, PendingDismissed, NotShown;
      DismissPending();
      ghost var shown := sessions;
      DismissArrivals();
      assert sessions[..|shown|] == shown;
      NoneOpen(sessions, pending);
    }

    method DismissArrivals()
      requires Valid()
      modifies this`arrivals, this`sessions
      ensures Valid() && arrivals == []
      ensures sessions == old(sessions) + AllDismissed(old(arrivals))
    {
      hide Inv, AllInv, PromptsMatch, Close;
      ghost var closed := AllDismissed(arrivals);
      ghost var n := 0;
      assert old(sessions) + closed[..0] == old(sessions);
      while arrivals != []
        invariant Valid() && 0 <= n <= |closed| && arrivals == old(arrivals)[n..]
        invariant sessions == old(sessions) + closed[..n]
        decreases |arrivals|
      {
        var request := arrivals[0];
        CloseKeepsInv(request, Dismissed);
        ClosedAdded(sessions, pending, Close(request, Dismissed));
        arrivals := arrivals[1..];
        sessions := sessions + [Close(request, Dismissed)];
        assert closed[..n + 1] == closed[..n] + [closed[n]];
        n := n + 1;
      }
      assert closed[..n] == closed;
    }

    method DismissPending()
      requires Valid()
      modifies this`sessions, this`pending
      ensures Valid() && pending == map[]
      ensures |sessions| == |old(sessions)| && PendingDismissed(old(sessions), old(pending), sessions)
    {
      hide Inv, AllInv, PromptsMatch, Close;
      while pending != map[]
        invariant Valid() && |sessions| == |old(sessions)|
        invariant pending.Values <= old(pending).Values
        invariant forall k :: 0 <= k < |sessions| ==>
          sessions[k] ==
            if k in old(pending).Values && k !in pending.Values
            then Close(old(sessions)[k], Dismissed) else old(sessions)[k]
        decreases |pending.Keys|
      {
        assert pending.Keys != {};
        var id :| id in pending;
        ghost var before := pending;
        PendingPrompt(sessions, pending, id);
        CloseWith(id, Dismissed);
        assert pending.Keys == before.Keys - {id};
      }
    }

    /** The client of a request that was not shown yet hangs up. */
    method ArrivalCancelled(k: nat)
      requires Valid() && k < |arrivals|
      modifies this`arrivals
      ensures Valid()
      ensures arrivals == old(arrivals)[k := Cancel(old(arrivals)[k])]
    {
      assert Inv(arrivals[k]);
      CancelKeepsInv(arrivals[k]);
      assert Cancel(arrivals[k]).prompt == arrivals[k].prompt;
      hide Inv, AllInv, PromptsMatch, Cancel;
      arrivals := arrivals[k := Cancel(arrivals[k])];
    }

    /** Steps the controllers take meanwhile leave all prompts as they are. */
    method ControllerActs(k: nat, step: Step)
      requires Valid() && k < |sessions|
      requires Enabled(sessions[k], step) && (step.TakeStep? || step.CheckStep? || step.CancelStep?)
      modifies this`sessions
      ensures Valid()
      ensures sessions == old(sessions)[k := Apply(old(sessions)[k], step)]
    {
      assert Inv(sessions[k]);
      hide Inv, AllInv, PromptsMatch, Apply, Enabled;
      StepKeepsInv(sessions[k], step);
      ControllerKeepsPrompt(sessions[k], step);
      PromptsUpdated(sessions, pending, k, Apply(sessions[k], step));
      sessions := sessions[k := Apply(sessions[k], step)];
    }
  }

  lemma ControllerKeepsPrompt(s: State, step: Step)
    requires Enabled(s, step) && (step.TakeStep? || step.CheckStep? || step.CancelStep?)
    ensures Apply(s, step).prompt == s.prompt
  {
  }

  // ----- single steps, spelled out -----

  /** The user can type and close at any time, the prompt can vanish, and the client can hang up. */
  lemma AlwaysPossible(s: State, toolkit: Toolkit, password: string)
    ensures Enabled(s, SubmitStep(toolkit, password)) && Enabled(s, CloseStep(Denied)) && Enabled(s, CloseStep(Dismissed))
    ensures Enabled(s, VanishStep) && Enabled(s, CancelStep)
    ensures !Enabled(s, CloseStep(Allowed(password, 0)))
  {
  }

  /** With nothing submitted there is nothing new; a prompt that is gone is to be closed. */
  lemma IdlePoll(s: State)
    ensures s.prompt == Open(None) ==> Poll(s) == (s, NothingNew)
    ensures s.prompt == Closed ==> Poll(s) == (s, CloseWindow)
  {
  }

  /** Ids count up to the largest of 32 bits and go on with 1. */
  lemma NextIdMeans(id: nat)
    requires 1 <= id <= 4294967295
    ensures NextId(id) == if id == 4294967295 then 1 else id + 1
  {
  }
}
