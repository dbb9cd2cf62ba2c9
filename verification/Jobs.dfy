/**
 * The life of import and export jobs. A request registers a job, writes its record and spawns
 * the rest, which moves the record's status and finally unregisters the job. Any number of
 * jobs interleave, and every database write may fail. The client may go away while its request
 * waits; the request is then dropped on the spot, and only what is spawned already goes on.
 */
module Jobs {
  import opened Wrappers

  type JobId = string

  datatype Status = Queued | Running | Succeeded | Failed

  /** How far the code of one job has come; each phase names what it does next. */
  datatype Phase =
    | Registered                  // write the record
    | Rejected                    // the record could not be written: unregister
    | Spawned                     // mark the job running
    | Working                     // import or export
    | Reporting(success: bool)    // write the outcome
    | GivingUp                    // a status write failed: try to mark the job failed
    | Finishing                   // unregister
    | Finished
    | Dropped(pending: bool)      // the request is gone; its record may be written yet

  datatype Job = Job(id: JobId, phase: Phase)

  datatype State = State(jobs: seq<Job>, active: set<JobId>, records: map<JobId, Status>)

  const Initial := State([], {}, map[])

  datatype Step =
    | Register(id: JobId)
    | CreateRecord(job: nat, ok: bool)
    | MarkRunning(job: nat, ok: bool)
    | Work(job: nat, success: bool)
    | Report(job: nat, ok: bool)
    | MarkFailed(job: nat, ok: bool)
    | Unregister(job: nat)
    | HangUp(job: nat)
    | LateRecord(job: nat, ok: bool)

  predicate At(s: State, job: nat, phase: Phase) {
    job < |s.jobs| && s.jobs[job].phase == phase
  }

  /** A record is written only under an id that has none; a status only where there is a record. */
  predicate Enabled(s: State, step: Step) {
    match step
    case Register(_) => true
    case CreateRecord(job, ok) => At(s, job, Registered) && (ok ==> s.jobs[job].id !in s.records)
    case MarkRunning(job, ok) => At(s, job, Spawned) && (ok ==> s.jobs[job].id in s.records)
    case Work(job, _) => At(s, job, Working)
    case Report(job, ok) =>
      job < |s.jobs| && s.jobs[job].phase.Reporting? && (ok ==> s.jobs[job].id in s.records)
    case MarkFailed(job, ok) => At(s, job, GivingUp) && (ok ==> s.jobs[job].id in s.records)
    case Unregister(job) => At(s, job, Rejected) || At(s, job, Finishing)
    case HangUp(job) => At(s, job, Registered) || At(s, job, Rejected)
    case LateRecord(job, ok) => At(s, job, Dropped(true)) && (ok ==> s.jobs[job].id !in s.records)
  }

  function Goto(s: State, job: nat, phase: Phase): State
    requires job < |s.jobs|
  {
    s.(jobs := s.jobs[job := s.jobs[job].(phase := phase)])
  }

  function Write(s: State, job: nat, status: Status): State
    requires job < |s.jobs|
  {
    s.(records := s.records[s.jobs[job].id := status])
  }

  function Apply(s: State, step: Step): State
    requires Enabled(s, step)
  {
    match step
    case Register(id) => s.(jobs := s.jobs + [Job(id, Registered)], active := s.active + {id})
    case CreateRecord(job, ok) =>
      if ok then Goto(Write(s, job, Queued), job, Spawned) else Goto(s, job, Rejected)
    case MarkRunning(job, ok) =>
      if ok then Goto(Write(s, job, Running), job, Working) else Goto(s, job, GivingUp)
    case Work(job, success) => Goto(s, job, Reporting(success))
    case Report(job, ok) =>
      if ok then Goto(Write(s, job, if s.jobs[job].phase.success then Succeeded else Failed), job, Finishing)
      else Goto(s, job, GivingUp)
    case MarkFailed(job, ok) =>
      Goto(if ok then Write(s, job, Failed) else s, job, Finishing)
    case Unregister(job) => Goto(s, job, Finished).(active := s.active - {s.jobs[job].id})
    case HangUp(job) => Goto(s, job, Dropped(s.jobs[job].phase == Registered))
    case LateRecord(job, ok) => Goto(if ok then Write(s, job, Queued) else s, job, Dropped(false))
  }

  /** No unfinished job has this id. */
  predicate Unused(s: State, id: JobId) {
    forall j :: 0 <= j < |s.jobs| && s.jobs[j].id == id ==> s.jobs[j].phase == Finished
  }

  /** Job ids are drawn at random; a draw is good if no unfinished job has the same id. */
  predicate GoodDraw(s: State, step: Step) {
    step.Register? ==> Unused(s, step.id)
  }

  ghost predicate StatusFits(phase: Phase, status: Option<Status>) {
    match phase
    case Spawned => status == Some(Queued)
    case Working => status == Some(Running)
    case Reporting(_) => status == Some(Running)
    case GivingUp => status == Some(Queued) || status == Some(Running)
    case Finishing => status.Some?
    case _ => true
  }

  function StatusOf(s: State, id: JobId): Option<Status> {
    if id in s.records then Some(s.records[id]) else None
  }

  /** The job was registered and not unregistered yet. */
  ghost predicate Unfinished(s: State, j: int) {
    0 <= j < |s.jobs| && s.jobs[j].phase != Finished
  }

  ghost predicate SomeUnfinished(s: State, id: JobId) {
    exists j :: Unfinished(s, j) && s.jobs[j].id == id
  }

  /** Unfinished jobs have ids of their own, and exactly their ids are active. */
  ghost predicate ActiveAreUnfinished(s: State) {
    && (forall j, k :: Unfinished(s, j) && Unfinished(s, k) && j != k ==> s.jobs[j].id != s.jobs[k].id)
    && (forall j :: Unfinished(s, j) ==> s.jobs[j].id in s.active)
    && (forall id :: id in s.active ==> SomeUnfinished(s, id))
  }

  ghost predicate StatusesFit(s: State) {
    forall j :: Unfinished(s, j) ==> StatusFits(s.jobs[j].phase, StatusOf(s, s.jobs[j].id))
  }

  ghost predicate Inv(s: State) {
    ActiveAreUnfinished(s) && StatusesFit(s)
  }

  /** Queued to running to a terminal status, or queued to failed; nothing after a terminal one. */
  predicate LegalMove(before: Option<Status>, after: Option<Status>) {
    || before == after
    || (before == None && after == Some(Queued))
    || (before == Some(Queued) && (after == Some(Running) || after == Some(Failed)))
    || (before == Some(Running) && (after == Some(Succeeded) || after == Some(Failed)))
  }

  /** The five ways in which a status can move, and standing still. */
  lemma LegalMoveMeans(before: Option<Status>, after: Option<Status>)
    ensures LegalMove(before, after) <==> before == after || (before, after) in [
      (None, Some(Queued)), (Some(Queued), Some(Running)), (Some(Queued), Some(Failed)),
      (Some(Running), Some(Succeeded)), (Some(Running), Some(Failed))]
  {
  }

  lemma StepKeepsActive(s: State, step: Step)
    requires ActiveAreUnfinished(s) && Enabled(s, step) && GoodDraw(s, step)
    ensures ActiveAreUnfinished(Apply(s, step))
  {
    hide ActiveAreUnfinished, Apply;
    match step {
      case Register(id) => RegisterKeepsActive(s, id);
      case Unregister(job) => UnregisterKeepsActive(s, job);
      case _ =>
        var job := Actor(step).value;
        MoveEffect(s, step, job);
        MoveKeepsActive(s, Apply(s, step), job);
    }
  }

  lemma MoveEffect(s: State, step: Step, job: nat)
    requires Enabled(s, step) && Actor(step) == Some(job) && !step.Unregister?
    ensures Unfinished(s, job)
    ensures var t := Apply(s, step);
      && t.active == s.active && |t.jobs| == |s.jobs|
      && (forall j :: 0 <= j < |s.jobs| ==> t.jobs[j].id == s.jobs[j].id)
      && (forall j :: 0 <= j < |s.jobs| && j != job ==> t.jobs[j] == s.jobs[j])
      && t.jobs[job].phase != Finished
  {
  }

  lemma RegisterKeepsActive(s: State, id: JobId)
    requires ActiveAreUnfinished(s) && Unused(s, id)
    ensures ActiveAreUnfinished(Apply(s, Register(id)))
  {
    var t := Apply(s, Register(id));
    assert t.jobs[|s.jobs|] == Job(id, Registered);
    assert forall j :: 0 <= j < |s.jobs| ==> t.jobs[j] == s.jobs[j];
    assert forall j :: Unfinished(t, j) <==> Unfinished(s, j) || j == |s.jobs|;
    forall a | a in t.active
      ensures SomeUnfinished(t, a)
    {
      if a in s.active {
        var j :| Unfinished(s, j) && s.jobs[j].id == a;
        assert Unfinished(t, j) && t.jobs[j].id == a;
      } else {
        assert Unfinished(t, |s.jobs|);
      }
    }
  }

  lemma UnregisterKeepsActive(s: State, job: nat)
    requires ActiveAreUnfinished(s) && Enabled(s, Unregister(job))
    ensures ActiveAreUnfinished(Apply(s, Unregister(job)))
  {
    var t := Apply(s, Unregister(job));
    assert Unfinished(s, job);
    assert forall j :: Unfinished(t, j) <==> Unfinished(s, j) && j != job;
    assert forall j :: 0 <= j < |s.jobs| ==> t.jobs[j].id == s.jobs[j].id;
    forall a | a in t.active
      ensures SomeUnfinished(t, a)
    {
      var j :| Unfinished(s, j) && s.jobs[j].id == a;
      assert j != job;
      assert Unfinished(t, j) && t.jobs[j].id == a;
    }
  }

  /** A job that moves on without finishing keeps its registration. */
  lemma MoveKeepsActive(s: State, t: State, job: nat)
    requires ActiveAreUnfinished(s) && Unfinished(s, job)
    requires t.active == s.active && |t.jobs| == |s.jobs|
    requires forall j :: 0 <= j < |s.jobs| ==> t.jobs[j].id == s.jobs[j].id
    requires forall j :: 0 <= j < |s.jobs| && j != job ==> t.jobs[j] == s.jobs[j]
    requires t.jobs[job].phase != Finished
    ensures ActiveAreUnfinished(t)
  {
    SameUnfinished(s, t, job);
    SameIdsSameActive(s, t);
  }

  lemma SameUnfinished(s: State, t: State, job: nat)
    requires Unfinished(s, job) && |t.jobs| == |s.jobs|
    requires forall j :: 0 <= j < |s.jobs| && j != job ==> t.jobs[j] == s.jobs[j]
    requires t.jobs[job].phase != Finished
    ensures forall j :: Unfinished(t, j) <==> Unfinished(s, j)
  {
  }

  lemma SameIdsSameActive(s: State, t: State)
    requires ActiveAreUnfinished(s)
    requires t.active == s.active && |t.jobs| == |s.jobs|
    requires forall j :: 0 <= j < |s.jobs| ==> t.jobs[j].id == s.jobs[j].id
    requires forall j :: Unfinished(t, j) <==> Unfinished(s, j)
    ensures ActiveAreUnfinished(t)
  {
    hide SomeUnfinished;
    forall a | a in t.active
      ensures SomeUnfinished(t, a)
    {
      SameSomeUnfinished(s, t, a);
    }
  }

  lemma SameSomeUnfinished(s: State, t: State, id: JobId)
    requires SomeUnfinished(s, id)
    requires |t.jobs| == |s.jobs|
    requires forall j :: 0 <= j < |s.jobs| ==> t.jobs[j].id == s.jobs[j].id
    requires forall j :: Unfinished(t, j) <==> Unfinished(s, j)
    ensures SomeUnfinished(t, id)
  {
    var j :| Unfinished(s, j) && s.jobs[j].id == id;
    assert Unfinished(t, j) && t.jobs[j].id == id;
  }

  /** The job a step acts for, if it is one that exists already. */
  function Actor(step: Step): Option<nat> {
    match step
    case Register(_) => None
    case CreateRecord(job, _) => Some(job)
    case MarkRunning(job, _) => Some(job)
    case Work(job, _) => Some(job)
    case Report(job, _) => Some(job)
    case MarkFailed(job, _) => Some(job)
    case Unregister(job) => Some(job)
    case HangUp(job) => Some(job)
    case LateRecord(job, _) => Some(job)
  }

  /** A step touches no record but its own job's, and moves that one legally. */
  lemma StepMovesOneStatus(s: State, step: Step, id: JobId)
    requires Inv(s) && Enabled(s, step)
    ensures LegalMove(StatusOf(s, id), StatusOf(Apply(s, step), id))
    ensures StatusOf(Apply(s, step), id) != StatusOf(s, id) ==>
      && Actor(step).Some? && Unfinished(s, Actor(step).value) && s.jobs[Actor(step).value].id == id
      && id in s.active && id in Apply(s, step).active
  {
    if Actor(step).Some? {
      assert Unfinished(s, Actor(step).value);
    }
  }

  lemma StepKeepsStatuses(s: State, step: Step)
    requires Inv(s) && Enabled(s, step) && GoodDraw(s, step)
    ensures StatusesFit(Apply(s, step))
  {
    hide LegalMove;
    var t := Apply(s, step);
    forall j | Unfinished(t, j)
      ensures StatusFits(t.jobs[j].phase, StatusOf(t, t.jobs[j].id))
    {
      if Actor(step) != Some(j) && j < |s.jobs| {
        assert Unfinished(s, j) && t.jobs[j] == s.jobs[j];
        StepMovesOneStatus(s, step, s.jobs[j].id);
      } else if j < |s.jobs| {
        assert Unfinished(s, j);
      }
    }
  }

  // ----- runs -----

  /** A run from the initial state; `good` says whether every draw was good. */
  ghost predicate RunOf(states: seq<State>, steps: seq<Step>) {
    && |states| == |steps| + 1 && states[0] == Initial
    && forall i :: 0 <= i < |steps| ==>
         Enabled(states[i], steps[i]) && states[i + 1] == Apply(states[i], steps[i])
  }

  ghost predicate AllGood(states: seq<State>, steps: seq<Step>) {
    |states| == |steps| + 1 && forall i :: 0 <= i < |steps| ==> GoodDraw(states[i], steps[i])
  }

  lemma {:induction false} RunKeepsInv(states: seq<State>, steps: seq<Step>, i: nat)
    requires RunOf(states, steps) && AllGood(states, steps) && i < |states|
    ensures Inv(states[i])
  {
    hide Enabled, Apply, GoodDraw, ActiveAreUnfinished, StatusesFit;
    if i == 0 {
      InitialInv();
    } else {
      RunKeepsInv(states, steps, i - 1);
      StepKeepsActive(states[i - 1], steps[i - 1]);
      StepKeepsStatuses(states[i - 1], steps[i - 1]);
    }
  }

  lemma InitialInv()
    ensures Inv(Initial)
  {
  }

  /**
   * In every interleaving with good draws: whenever the status of a job changes, the job is
   * active before and after, and the change is a legal move; a job is active exactly from its
   * registration until its unregistration.
   */
  lemma StatusesMoveWhileActive(states: seq<State>, steps: seq<Step>, i: nat, id: JobId)
    requires RunOf(states, steps) && AllGood(states, steps) && i < |steps|
    ensures LegalMove(StatusOf(states[i], id), StatusOf(states[i + 1], id))
    ensures StatusOf(states[i], id) != StatusOf(states[i + 1], id) ==> id in states[i].active && id in states[i + 1].active
    ensures id in states[i].active <==> SomeUnfinished(states[i], id)
  {
    RunKeepsInv(states, steps, i);
    StepMovesOneStatus(states[i], steps[i], id);
  }

  /** Once terminal, a status stays. */
  lemma {:induction false} TerminalStays(states: seq<State>, steps: seq<Step>, i: nat, j: nat, id: JobId)
    requires RunOf(states, steps) && AllGood(states, steps) && i <= j < |states|
    requires StatusOf(states[i], id) == Some(Succeeded) || StatusOf(states[i], id) == Some(Failed)
    ensures StatusOf(states[j], id) == StatusOf(states[i], id)
    decreases j
  {
    if i < j {
      TerminalStays(states, steps, i, j - 1, id);
      StatusesMoveWhileActive(states, steps, j - 1, id);
    }
  }

  // ----- registrations and unregistrations -----

  function Registrations(steps: seq<Step>): nat {
    if steps == [] then 0 else Registrations(steps[..|steps| - 1]) + if steps[|steps| - 1].Register? then 1 else 0
  }

  function UnregistrationsOf(steps: seq<Step>, job: nat): nat {
    if steps == [] then 0
    else UnregistrationsOf(steps[..|steps| - 1], job) + if steps[|steps| - 1] == Unregister(job) then 1 else 0
  }

  /** A step adds a job only by registering it, and finishes one only by unregistering it. */
  lemma StepCounts(s: State, step: Step, job: nat)
    requires Enabled(s, step)
    ensures |Apply(s, step).jobs| == |s.jobs| + if step.Register? then 1 else 0
    ensures At(Apply(s, step), job, Finished) <==> At(s, job, Finished) || step == Unregister(job)
    ensures step == Unregister(job) ==> !At(s, job, Finished)
  {
  }

  function HangUpsOf(steps: seq<Step>, job: nat): nat {
    if steps == [] then 0
    else HangUpsOf(steps[..|steps| - 1], job) + if steps[|steps| - 1] == HangUp(job) then 1 else 0
  }

  /** A job is dropped exactly by a client that hangs up, and never comes back. */
  lemma StepDrops(s: State, step: Step, job: nat)
    requires Enabled(s, step)
    ensures IsDropped(Apply(s, step), job) <==> IsDropped(s, job) || step == HangUp(job)
    ensures step == HangUp(job) ==> !IsDropped(s, job)
    ensures IsDropped(s, job) ==> job < |Apply(s, step).jobs| && Apply(s, step).jobs[job].id == s.jobs[job].id
  {
  }

  predicate IsDropped(s: State, job: nat) {
    job < |s.jobs| && s.jobs[job].phase.Dropped?
  }

  /** Nothing is left to be done for the job. */
  predicate Ended(s: State, job: nat) {
    At(s, job, Finished) || At(s, job, Dropped(false))
  }

  /** A job is dropped at most once, and is dropped exactly if its client hung up in time. */
  lemma {:induction false} HangUpsDrop(states: seq<State>, steps: seq<Step>, i: nat, job: nat)
    requires RunOf(states, steps) && i < |states|
    ensures HangUpsOf(steps[..i], job) == if IsDropped(states[i], job) then 1 else 0
  {
    hide Apply, Enabled;
    if i > 0 {
      assert steps[..i][..i - 1] == steps[..i - 1];
      HangUpsDrop(states, steps, i - 1, job);
      StepDrops(states[i - 1], steps[i - 1], job);
    }
  }

  /**
   * A job that has come to its end was unregistered, once, if and only if no client hung up
   * before it was spawned or unregistered; otherwise its registration stays unmatched.
   */
  lemma UnmatchedIffDropped(states: seq<State>, steps: seq<Step>, i: nat, job: nat)
    requires RunOf(states, steps) && i < |states|
    requires Ended(states[i], job)
    ensures UnregistrationsOf(steps[..i], job) == 0 <==> HangUpsOf(steps[..i], job) > 0
    ensures UnregistrationsOf(steps[..i], job) + HangUpsOf(steps[..i], job) == 1
  {
    RegistrationsMatch(states, steps, i, job);
    HangUpsDrop(states, steps, i, job);
  }

  /** A dropped job stays registered for good, so the agent never again counts as idle. */
  lemma {:induction false} DroppedStaysActive(states: seq<State>, steps: seq<Step>, i: nat, j: nat, job: nat)
    requires RunOf(states, steps) && AllGood(states, steps) && i <= j < |states|
    requires IsDropped(states[i], job)
    ensures IsDropped(states[j], job) && states[j].jobs[job].id == states[i].jobs[job].id
    ensures states[i].jobs[job].id in states[j].active
    decreases j
  {
    hide Apply, Enabled, GoodDraw, Inv;
    if i < j {
      DroppedStaysActive(states, steps, i, j - 1, job);
      StepDrops(states[j - 1], steps[j - 1], job);
    }
    RunKeepsInv(states, steps, j);
    UnfinishedIsActive(states[j], job);
  }

  /** Once all jobs have come to their end, the agent is idle if and only if none was dropped. */
  lemma IdleIffNoneDropped(states: seq<State>, steps: seq<Step>, i: nat)
    requires RunOf(states, steps) && AllGood(states, steps) && i < |states|
    requires forall job: nat :: job < |states[i].jobs| ==> Ended(states[i], job)
    ensures states[i].active == {} <==> forall job: nat :: job < |states[i].jobs| ==> HangUpsOf(steps[..i], job) == 0
  {
    hide Apply, Enabled, GoodDraw, StatusesFit;
    var s := states[i];
    RunKeepsInv(states, steps, i);
    forall job: nat | job < |s.jobs|
      ensures HangUpsOf(steps[..i], job) == 0 <==> !Unfinished(s, job)
    {
      assert Ended(s, job);
      HangUpsDrop(states, steps, i, job);
    }
    ActiveIffSome(s);
    if job: nat :| job < |s.jobs| && Unfinished(s, job) {
      assert HangUpsOf(steps[..i], job) != 0;
    }
  }

  lemma ActiveIffSome(s: State)
    requires ActiveAreUnfinished(s)
    ensures s.active == {} <==> forall job :: !Unfinished(s, job)
  {
    if s.active != {} {
      var id :| id in s.active;
      assert SomeUnfinished(s, id);
    }
  }

  /** The record of a job that was dropped before it was written says "queued" for good. */
  lemma {:induction false} OrphanStaysQueued(states: seq<State>, steps: seq<Step>, i: nat, j: nat, job: nat)
    requires RunOf(states, steps) && AllGood(states, steps) && i < j < |states|
    requires steps[i] == LateRecord(job, true)
    ensures job < |states[i].jobs| && StatusOf(states[j], states[i].jobs[job].id) == Some(Queued)
    ensures job < |states[j].jobs| && states[j].jobs[job] == Job(states[i].jobs[job].id, Dropped(false))
    decreases j
  {
    if j == i + 1 {
      LateRecordWrites(states[i], job);
    } else {
      OrphanStaysQueued(states, steps, i, j - 1, job);
      var s, step := states[j - 1], steps[j - 1];
      RunKeepsInv(states, steps, j - 1);
      NothingMoreToDo(s, step, job);
      OtherStepKeepsMine(s, step, job);
    }
    hide Apply, Enabled, GoodDraw, Inv, StatusOf;
  }

  lemma LateRecordWrites(s: State, job: nat)
    requires Enabled(s, LateRecord(job, true))
    ensures var t := Apply(s, LateRecord(job, true));
      && job < |t.jobs| && t.jobs[job] == Job(s.jobs[job].id, Dropped(false))
      && StatusOf(t, s.jobs[job].id) == Some(Queued)
  {
  }

  lemma NothingMoreToDo(s: State, step: Step, job: nat)
    requires Enabled(s, step) && At(s, job, Dropped(false))
    ensures Actor(step) != Some(job)
  {
  }

  /** The shortest run that leaves a registration behind, and a record that nobody will work on. */
  lemma HangUpLeavesRegistration(id: JobId)
    ensures
      var steps := [Register(id), HangUp(0), LateRecord(0, true)];
      exists states: seq<State> :: && RunOf(states, steps) && AllGood(states, steps) && Ended(states[3], 0)
        && states[3].active == {id} && StatusOf(states[3], id) == Some(Queued)
  {
    var s1 := State([Job(id, Registered)], {id}, map[]);
    var s2 := State([Job(id, Dropped(true))], {id}, map[]);
    var s3 := State([Job(id, Dropped(false))], {id}, map[id := Queued]);
    var states, steps := [Initial, s1, s2, s3], [Register(id), HangUp(0), LateRecord(0, true)];
    assert Apply(Initial, Register(id)) == s1 && Apply(s1, HangUp(0)) == s2 && Apply(s2, LateRecord(0, true)) == s3;
    hide Apply;
    assert RunOf(states, steps);
  }

  /**
   * Every job was registered once. It is unregistered at most once, namely when its code reaches
   * its end, and never before; this holds whatever the ids are.
   */
  lemma {:induction false} RegistrationsMatch(states: seq<State>, steps: seq<Step>, i: nat, job: nat)
    requires RunOf(states, steps) && i < |states|
    ensures |states[i].jobs| == Registrations(steps[..i])
    ensures UnregistrationsOf(steps[..i], job) == if At(states[i], job, Finished) then 1 else 0
  {
    hide Apply, Enabled;
    if i > 0 {
      assert steps[..i][..i - 1] == steps[..i - 1];
      RegistrationsMatch(states, steps, i - 1, job);
      StepCounts(states[i - 1], steps[i - 1], job);
    }
  }

  // ----- every job comes to its end -----

  /** How many more steps a job can take at most. */
  function Rank(phase: Phase): nat {
    match phase
    case Registered => 6
    case Spawned => 5
    case Working => 4
    case Reporting(_) => 3
    case GivingUp => 2
    case Finishing => 1
    case Rejected => 1
    case Finished => 0
    case Dropped(pending) => if pending then 1 else 0
  }

  /** The step that job takes next if the database refuses to write. */
  function NextStep(job: nat, phase: Phase): Step
    requires phase != Finished && phase != Dropped(false)
  {
    match phase
    case Registered => CreateRecord(job, false)
    case Spawned => MarkRunning(job, false)
    case Working => Work(job, false)
    case Reporting(_) => Report(job, false)
    case GivingUp => MarkFailed(job, false)
    case Finishing => Unregister(job)
    case Rejected => Unregister(job)
    case Dropped(_) => LateRecord(job, false)
  }

  function StepsOf(steps: seq<Step>, job: nat): nat {
    if steps == [] then 0
    else StepsOf(steps[..|steps| - 1], job) + if Actor(steps[|steps| - 1]) == Some(job) then 1 else 0
  }

  lemma StepLowersRank(s: State, step: Step, job: nat)
    requires Enabled(s, step) && job < |s.jobs|
    ensures var t := Apply(s, step);
      && job < |t.jobs|
      && (Actor(step) == Some(job) ==> Rank(t.jobs[job].phase) < Rank(s.jobs[job].phase))
      && (Actor(step) != Some(job) ==> t.jobs[job] == s.jobs[job])
  {
  }

  /**
   * No job waits for another: it can take a step, even if no database write succeeds, if and
   * only if it has not come to its end.
   */
  lemma UnfinishedJobsCanStep(s: State, job: nat)
    requires job < |s.jobs|
    ensures (exists step :: Enabled(s, step) && Actor(step) == Some(job)) <==> !Ended(s, job)
    ensures !Ended(s, job) ==>
      var next := NextStep(job, s.jobs[job].phase); Enabled(s, next) && Actor(next) == Some(job)
  {
    if !Ended(s, job) {
      var next := NextStep(job, s.jobs[job].phase);
      assert Enabled(s, next) && Actor(next) == Some(job);
    }
  }

  /** No job goes on for ever: none takes more than six steps in any run. */
  lemma {:induction false} JobsComeToTheirEnd(states: seq<State>, steps: seq<Step>, i: nat, job: nat)
    requires RunOf(states, steps) && i < |states|
    ensures StepsOf(steps[..i], job) + (if job < |states[i].jobs| then Rank(states[i].jobs[job].phase) else 6) <= 6
  {
    hide Apply, Enabled, Rank, Actor;
    if i > 0 {
      assert steps[..i][..i - 1] == steps[..i - 1];
      JobsComeToTheirEnd(states, steps, i - 1, job);
      var s, step := states[i - 1], steps[i - 1];
      if job < |s.jobs| {
        StepLowersRank(s, step, job);
      } else {
        NewcomersHaveNotActed(s, step, job);
      }
    }
  }

  lemma NewcomersHaveNotActed(s: State, step: Step, job: nat)
    requires Enabled(s, step) && job >= |s.jobs|
    ensures Actor(step) != Some(job)
    ensures var t := Apply(s, step); job < |t.jobs| ==> Rank(t.jobs[job].phase) <= 6
  {
  }

  lemma InvMeansGoodDraw(s: State, step: Step)
    requires Enabled(s, step) && Inv(Apply(s, step))
    ensures GoodDraw(s, step)
  {
    if step.Register? {
      var t := Apply(s, step);
      assert t.jobs[|s.jobs|] == Job(step.id, Registered) && Unfinished(t, |s.jobs|);
      forall j | 0 <= j < |s.jobs| && s.jobs[j].phase != Finished
        ensures s.jobs[j].id != step.id
      {
        assert t.jobs[j] == s.jobs[j] && Unfinished(t, j);
      }
    }
  }

  /** In a run every state is as it should be if and only if no id of an unfinished job was drawn. */
  lemma InvIffGoodDraws(states: seq<State>, steps: seq<Step>)
    requires RunOf(states, steps)
    ensures (forall i :: 0 <= i < |states| ==> Inv(states[i])) <==> AllGood(states, steps)
  {
    hide Inv, Enabled, Apply, GoodDraw;
    if AllGood(states, steps) {
      forall i | 0 <= i < |states|
        ensures Inv(states[i])
      {
        RunKeepsInv(states, steps, i);
      }
    }
    if forall i :: 0 <= i < |states| ==> Inv(states[i]) {
      forall i | 0 <= i < |steps|
        ensures GoodDraw(states[i], steps[i])
      {
        assert Inv(states[i + 1]);
        InvMeansGoodDraw(states[i], steps[i]);
      }
    }
  }

  /**
   * A bad draw does harm: from every state, registering a job under the id of one that is
   * still unfinished can take that job out of the active set while it goes on.
   */
  lemma BadDrawLosesJob(s: State, job: nat, id: JobId)
    requires Inv(s) && Unfinished(s, job) && s.jobs[job].id == id
    ensures
      var k := |s.jobs|;
      && Enabled(s, Register(id))
      && var s1 := Apply(s, Register(id));
         && Enabled(s1, CreateRecord(k, false))
         && var s2 := Apply(s1, CreateRecord(k, false));
            && Enabled(s2, Unregister(k))
            && var s3 := Apply(s2, Unregister(k));
               Unfinished(s3, job) && s3.jobs[job] == s.jobs[job] && id !in s3.active && !Inv(s3)
  {
    var k := |s.jobs|;
    var s1 := Apply(s, Register(id));
    assert s1.jobs[k] == Job(id, Registered);
    var s2 := Apply(s1, CreateRecord(k, false));
    assert s2.jobs[k] == Job(id, Rejected);
    var s3 := Apply(s2, Unregister(k));
    assert s3.jobs[job] == s.jobs[job] && s3.active == s.active + {id} - {id};
  }

  // ----- the code of one job among the others -----

  lemma OtherStepKeepsMine(s: State, step: Step, mine: nat)
    requires Inv(s) && Enabled(s, step) && Unfinished(s, mine) && Actor(step) != Some(mine)
    ensures var t := Apply(s, step);
      mine < |t.jobs| && t.jobs[mine] == s.jobs[mine] && StatusOf(t, s.jobs[mine].id) == StatusOf(s, s.jobs[mine].id)
  {
    StepLowersRank(s, step, mine);
    StepMovesOneStatus(s, step, s.jobs[mine].id);
    hide Apply, Enabled, StatusesFit, LegalMove, StatusOf;
  }

  lemma StepKeepsInv(s: State, step: Step)
    requires Inv(s) && Enabled(s, step) && GoodDraw(s, step)
    ensures Inv(Apply(s, step))
  {
    StepKeepsActive(s, step);
    StepKeepsStatuses(s, step);
  }

  datatype Acceptance = Accepted | Refused | Abandoned

  /** What befalls a request: where its client goes away, and whether the database refuses it. */
  datatype RequestFate = RequestFate(leavesFirst: bool, refused: bool, leavesThen: bool)

  /** What befalls the spawned code: which writes go through, and how the work ends. */
  datatype TaskFate = TaskFate(runs: bool, success: bool, reports: bool, marks: bool)

  /** The agent with its jobs; `state` is what all of them share. */
  class Agent {
    var state: State

    constructor ()
      ensures state == Initial && Inv(state)
    {
      state := Initial;
      InitialInv();
    }

    /** While this job waits for the database, the others take any steps, and new ones come. */
    method OthersAct(mine: nat)
      requires Inv(state) && Unfinished(state, mine)
      modifies this
      ensures Inv(state) && Unfinished(state, mine)
      ensures state.jobs[mine] == old(state).jobs[mine]
      ensures StatusOf(state, state.jobs[mine].id) == StatusOf(old(state), state.jobs[mine].id)
    {
      hide Inv, Apply, Enabled, GoodDraw, StatusOf;
      var times: nat :| true;
      for i := 0 to times
        invariant Inv(state) && Unfinished(state, mine)
        invariant state.jobs[mine] == old(state).jobs[mine]
        invariant StatusOf(state, state.jobs[mine].id) == StatusOf(old(state), state.jobs[mine].id)
      {
        var step: Step := *;
        if Enabled(state, step) && GoodDraw(state, step) && Actor(step) != Some(mine) {
          OtherStepKeepsMine(state, step, mine);
          StepKeepsInv(state, step);
          state := Apply(state, step);
        }
      }
    }

    /** One step of the job itself; whether a write goes through is part of the step. */
    method Take(job: nat, step: Step)
      requires Inv(state) && Enabled(state, step) && Actor(step) == Some(job) && job < |state.jobs|
      modifies this
      ensures state == Apply(old(state), step) && Inv(state) && job < |state.jobs|
    {
      StepKeepsInv(state, step);
      StepLowersRank(state, step, job);
      state := Apply(state, step);
    }

    /**
     * The request: register, write the record, and unregister again if that fails. The client
     * may go away at either wait, and then the registration stays. The request is refused only
     * for a write that fails or an id that has a record already.
     */
    method Accept(id: JobId, fate: RequestFate) returns (acceptance: Acceptance, job: nat)
      requires Inv(state) && Unused(state, id)
      modifies this
      ensures Inv(state) && job < |state.jobs| && state.jobs[job].id == id
      ensures acceptance ==
        if fate.leavesFirst then Abandoned
        else if !fate.refused && StatusOf(old(state), id) == None then Accepted
        else if fate.leavesThen then Abandoned
        else Refused
      ensures match acceptance
        case Accepted => state.jobs[job].phase == Spawned && id in state.active && StatusOf(state, id) == Some(Queued)
        case Refused => state.jobs[job].phase == Finished && id !in state.active
        case Abandoned => state.jobs[job].phase.Dropped? && id in state.active
    {
      hide Inv;
      job := |state.jobs|;
      StepKeepsInv(state, Register(id));
      state := Apply(state, Register(id));
      OthersAct(job);
      if fate.leavesFirst {
        Take(job, HangUp(job));
        UnfinishedIsActive(state, job);
        return Abandoned, job;
      }
      if !fate.refused && id !in state.records {
        Take(job, CreateRecord(job, true));
        UnfinishedIsActive(state, job);
        return Accepted, job;
      }
      Take(job, CreateRecord(job, false));
      OthersAct(job);
      if fate.leavesThen {
        Take(job, HangUp(job));
        UnfinishedIsActive(state, job);
        return Abandoned, job;
      }
      Take(job, Unregister(job));
      return Refused, job;
    }

    /**
     * The spawned code of an accepted job. `work` is how its work ended, if it came to that, and
     * `last` the last status it wrote. Whatever fails and whatever the others do, it ends
     * unregistered, and its record shows what it wrote last: the outcome of the work if that could
     * be reported, and else failure, or nothing more if that could not be written either.
     */
    method RunTask(job: nat, fate: TaskFate) returns (work: Option<bool>, reported: bool, last: Option<Status>)
      requires Inv(state) && At(state, job, Spawned)
      modifies this
      ensures Inv(state) && At(state, job, Finished)
      ensures state.jobs[job].id == old(state).jobs[job].id && state.jobs[job].id !in state.active
      ensures work == (if fate.runs then Some(fate.success) else None) && reported == (work.Some? && fate.reports)
      ensures match work
        case None => last == if fate.marks then Some(Failed) else None
        case Some(success) =>
          if reported then last == Some(if success then Succeeded else Failed)
          else last == Some(if fate.marks then Failed else Running)
      ensures StatusOf(state, state.jobs[job].id) == if last.Some? then last else Some(Queued)
    {
      hide Inv;
      work, reported, last := None, false, None;
      QueuedWhenSpawned(state, job);
      OthersAct(job);
      HasRecord(state, job);
      Take(job, MarkRunning(job, fate.runs));
      var failing := !fate.runs;
      if fate.runs {
        last := Some(Running);
        OthersAct(job);
        Take(job, Work(job, fate.success));
        work := Some(fate.success);
        OthersAct(job);
        HasRecord(state, job);
        reported := fate.reports;
        Take(job, Report(job, reported));
        if reported {
          last := Some(if fate.success then Succeeded else Failed);
        }
        failing := !reported;
      }
      if failing {
        OthersAct(job);
        HasRecord(state, job);
        Take(job, MarkFailed(job, fate.marks));
        if fate.marks {
          last := Some(Failed);
        }
      }
      OthersAct(job);
      Take(job, Unregister(job));
    }
  }

  lemma UnfinishedIsActive(s: State, job: nat)
    requires Inv(s) && Unfinished(s, job)
    ensures s.jobs[job].id in s.active
  {
  }

  lemma QueuedWhenSpawned(s: State, job: nat)
    requires Inv(s) && At(s, job, Spawned)
    ensures StatusOf(s, s.jobs[job].id) == Some(Queued)
  {
    assert Unfinished(s, job);
  }

  lemma HasRecord(s: State, job: nat)
    requires Inv(s) && Unfinished(s, job)
    requires !s.jobs[job].phase.Registered? && !s.jobs[job].phase.Rejected? && !s.jobs[job].phase.Dropped?
    ensures s.jobs[job].id in s.records
  {
  }
}
