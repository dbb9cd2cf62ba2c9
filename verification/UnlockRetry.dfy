/**
 * The unlock-and-retry protocol of the command-line client: a request that is denied is sent
 * once more after unlocking, with at most three password attempts in between.
 */
module UnlockRetry {
  import opened Wrappers
  import opened Bytes

  const MAX_PASSWORD_ATTEMPTS: nat := 3
  const UPLOAD_BUFFER_BYTES: nat := 16 * 1024

  datatype AuthMode = ProcessOnly | IncludePassword

  datatype UnlockMethod = UnlockMethod(validUrl: bool, acceptsMasterPassword: bool)

  /** A response as far as the protocol looks at it: status, error code and listed methods. */
  datatype Reply = Reply(status: nat, code: string, methods: Option<seq<UnlockMethod>>)

  datatype AppError = IoFailed | InvalidData | ApiFailed(status: nat, code: string)

  type Answer = Result<Reply, AppError>

  datatype Sent =
    | Request(body: bytes, bearer: Option<string>)
    | Aborted(part: bytes, bearer: Option<string>)   // a streamed request given up half way
    | Discovery
    | Unlock(password: Option<string>)

  datatype Entry = Entry(sent: Sent, answer: Answer)

  type Log = seq<Entry>

  predicate IsAccessDenied(answer: Answer) {
    answer.Ok? && answer.value.status == 403 && answer.value.code == "access_denied"
  }

  predicate IsSuccess(reply: Reply) {
    200 <= reply.status < 300
  }

  /** The unlock request succeeded. */
  predicate Unlocked(answer: Answer) {
    answer.Ok? && answer.value.status == 200
  }

  function UnlockResult(answer: Answer): Result<(), AppError> {
    match answer
    case Err(e) => Err(e)
    case Ok(reply) => if reply.status == 200 then Ok(()) else Err(ApiFailed(reply.status, reply.code))
  }

  predicate IsRetryable(error: AppError) {
    error.ApiFailed? && error.status == 403 && (error.code == "access_denied" || error.code == "unlock_failed")
  }

  predicate Rejected(answer: Answer) {
    UnlockResult(answer).Err? && IsRetryable(UnlockResult(answer).error)
  }

  // ----- the parties -----

  /**
   * The agent: it may answer anything, and every message is logged with its answer. Writing
   * may fail at any time, and `failed` remembers that it has.
   */
  class Link {
    var log: Log
    var failed: bool

    constructor ()
      ensures log == [] && !failed
    {
      log, failed := [], false;
    }

    method Exchange(sent: Sent) returns (answer: Answer)
      requires !sent.Aborted?
      modifies this`log
      ensures log == old(log) + [Entry(sent, answer)]
    {
      answer := *;
      log := log + [Entry(sent, answer)];
    }

    method Abort(part: bytes, bearer: Option<string>, error: AppError) returns (answer: Answer)
      modifies this`log
      ensures answer == Err(error)
      ensures log == old(log) + [Entry(Aborted(part, bearer), answer)]
    {
      answer := Err(error);
      log := log + [Entry(Aborted(part, bearer), answer)];
    }

    method Write(data: bytes) returns (ok: bool)
      modifies this`failed
      ensures failed == (old(failed) || !ok)
    {
      ok := *;
      failed := failed || !ok;
    }
  }

  /**
   * A seekable source that returns as little per read as it likes. Reading and rewinding may
   * fail, and `failed` remembers that either has.
   */
  class BodyReader {
    const data: bytes
    var position: nat
    var failed: bool

    constructor (data: bytes)
      ensures this.data == data && Valid() && !failed
    {
      this.data, position, failed := data, 0, false;
    }

    ghost predicate Valid()
      reads this`position
    {
      position <= |data|
    }

    method SeekStart() returns (ok: bool)
      modifies this
      ensures position == if ok then 0 else old(position)
      ensures failed == (old(failed) || !ok)
    {
      ok := *;
      if ok {
        position := 0;
      } else {
        failed := true;
      }
    }

    method Read(limit: nat) returns (part: Option<bytes>)
      requires Valid() && limit > 0
      modifies this
      ensures Valid() && failed == (old(failed) || part.None?)
      ensures part.Some? ==>
        && position == old(position) + |part.value| && |part.value| <= limit
        && part.value == data[old(position)..position]
        && (part.value == [] <==> old(position) == |data|)
      ensures part.None? ==> position == old(position)
    {
      var fails: bool := *;
      if fails {
        failed := true;
        return None;
      }
      if position == |data| {
        return Some([]);
      }
      var n :| 1 <= n <= limit && position + n <= |data|;
      part := Some(data[position..position + n]);
      position := position + n;
    }
  }

  type Prompts = seq<Option<string>>

  /** The user: what was typed at each prompt so far, `None` where the prompt failed. */
  class Terminal {
    var prompts: Prompts

    constructor ()
      ensures prompts == []
    {
      prompts := [];
    }

    method Prompt() returns (password: Option<string>)
      modifies this
      ensures prompts == old(prompts) + [password]
    {
      password := *;
      prompts := prompts + [password];
    }
  }

  // ----- password attempts -----

  function WithPassword(answer: Answer, password: Option<string>): Result<Option<string>, AppError> {
    match UnlockResult(answer)
    case Ok(_) => Ok(password)
    case Err(e) => Err(e)
  }

  /**
   * Unlocking with the passwords `p` typed at the prompts: each is tried as it is typed, a
   * rejected one is followed by another prompt while fewer than three were rejected, and
   * nothing else is. The outcome is that of the last prompt.
   */
  ghost predicate Attempts(t: Log, p: Prompts, validUrl: bool, r: Result<Option<string>, AppError>) {
    && p != [] && |p| - 1 <= |t| <= |p| <= MAX_PASSWORD_ATTEMPTS
    && (forall i :: 0 <= i < |t| ==> p[i].Some? && t[i].sent == Unlock(p[i]))
    && (forall i :: 0 <= i < |p| - 1 ==> Rejected(t[i].answer))
    && (!validUrl ==> t == [])
    && (if |t| == |p| then
          && validUrl
          && r == WithPassword(t[|t| - 1].answer, p[|t| - 1])
          && (Rejected(t[|t| - 1].answer) ==> |t| == MAX_PASSWORD_ATTEMPTS)
        else if p[|t|].None? then r == Err(IoFailed)
        else !validUrl && r == Err(InvalidData))
  }

  method UnlockOnce(link: Link, unlockMethod: UnlockMethod, password: Option<string>)
    returns (r: Result<(), AppError>)
    modifies link`log
    ensures unlockMethod.validUrl ==>
      && |link.log| == |old(link.log)| + 1 && old(link.log) <= link.log
      && link.log[|old(link.log)|].sent == Unlock(password)
      && r == UnlockResult(link.log[|old(link.log)|].answer)
    ensures !unlockMethod.validUrl ==> r == Err(InvalidData) && link.log == old(link.log)
  {
    if !unlockMethod.validUrl {
      return Err(InvalidData);
    }
    var answer := link.Exchange(Unlock(password));
    r := UnlockResult(answer);
  }

  /** Every attempt so far was rejected. */
  ghost predicate AllRejected(t: Log, p: Prompts) {
    && |t| == |p|
    && forall i :: 0 <= i < |t| ==> p[i].Some? && t[i].sent == Unlock(p[i]) && Rejected(t[i].answer)
  }

  method UnlockWithPasswordPrompt(link: Link, terminal: Terminal, unlockMethod: UnlockMethod)
    returns (r: Result<Option<string>, AppError>)
    modifies link`log, terminal
    ensures old(link.log) <= link.log && old(terminal.prompts) <= terminal.prompts
    ensures Attempts(
      link.log[|old(link.log)|..], terminal.prompts[|old(terminal.prompts)|..], unlockMethod.validUrl, r)
  {
    hide Rejected, UnlockResult;
    ghost var start, first := link.log, terminal.prompts;
    for attempt := 0 to MAX_PASSWORD_ATTEMPTS
      invariant attempt < MAX_PASSWORD_ATTEMPTS
      invariant attempt > 0 ==> unlockMethod.validUrl
      invariant start <= link.log && |link.log| == |start| + attempt
      invariant first <= terminal.prompts && |terminal.prompts| == |first| + attempt
      invariant AllRejected(link.log[|start|..], terminal.prompts[|first|..])
    {
      ghost var tried, typed := link.log[|start|..], terminal.prompts[|first|..];
      var password := terminal.Prompt();
      assert terminal.prompts[|first|..] == typed + [password];
      if password.None? {
        return Err(IoFailed);
      }
      var result := UnlockOnce(link, unlockMethod, password);
      if unlockMethod.validUrl {
        assert link.log[|start|..] == tried + [link.log[|start| + attempt]];
        RejectedIff(link.log[|start| + attempt].answer);
      }
      if result.Ok? {
        return Ok(password);
      }
      if !IsRetryable(result.error) || attempt + 1 == MAX_PASSWORD_ATTEMPTS {
        return Err(result.error);
      }
    }
    assert false;
  }

  lemma RejectedIff(answer: Answer)
    ensures Rejected(answer) <==> UnlockResult(answer).Err? && IsRetryable(UnlockResult(answer).error)
    ensures !IsRetryable(InvalidData)
  {
  }

  /** What the discovery's answer says about the method to unlock with. */
  ghost predicate FirstMethodIs(answer: Answer, r: Result<UnlockMethod, AppError>) {
    match answer
    case Err(e) => r == Err(e)
    case Ok(Reply(status, code, methods)) =>
      if !(200 <= status <= 299) then r == Err(ApiFailed(status, code))
      else if methods.Some? && methods.value != [] then r == Ok(methods.value[0])
      else r == Err(InvalidData)
  }

  method FirstUnlockMethod(link: Link) returns (r: Result<UnlockMethod, AppError>)
    modifies link`log
    ensures |link.log| == |old(link.log)| + 1 && old(link.log) <= link.log
    ensures link.log[|old(link.log)|].sent == Discovery
    ensures FirstMethodIs(link.log[|old(link.log)|].answer, r)
  {
    var answer := link.Exchange(Discovery);
    match answer {
      case Err(e) => r := Err(e);
      case Ok(reply) =>
        if !IsSuccess(reply) {
          return Err(ApiFailed(reply.status, reply.code));
        }
        if reply.methods.None? || reply.methods.value == [] {
          return Err(InvalidData);
        }
        r := Ok(reply.methods.value[0]);
    }
  }

  /**
   * Unlocks by whichever method the agent lists first: with prompted passwords if it accepts
   * the master password, and else with one request that carries none.
   */
  ghost predicate UnlockPhase(t: Log, p: Prompts, r: Result<Option<string>, AppError>) {
    && t != [] && t[0].sent == Discovery
    && exists m: Result<UnlockMethod, AppError> ::
         && FirstMethodIs(t[0].answer, m)
         && match m
            case Err(e) => t[1..] == [] && p == [] && r == Err(e)
            case Ok(UnlockMethod(validUrl, true)) => Attempts(t[1..], p, validUrl, r)
            case Ok(UnlockMethod(validUrl, false)) =>
              && p == []
              && if validUrl then |t| == 2 && t[1].sent == Unlock(None) && r == WithPassword(t[1].answer, None)
                 else |t| == 1 && r == Err(InvalidData)
  }

  method UnlockAccess(link: Link, terminal: Terminal) returns (r: Result<Option<string>, AppError>)
    modifies link`log, terminal
    ensures old(link.log) <= link.log && old(terminal.prompts) <= terminal.prompts
    ensures UnlockPhase(link.log[|old(link.log)|..], terminal.prompts[|old(terminal.prompts)|..], r)
  {
    hide Attempts, FirstMethodIs, UnlockResult;
    ghost var start := link.log;
    var found := FirstUnlockMethod(link);
    if found.Err? {
      return Err(found.error);
    }
    ghost var discovered := link.log;
    if found.value.acceptsMasterPassword {
      r := UnlockWithPasswordPrompt(link, terminal, found.value);
      assert link.log[|start|..][1..] == link.log[|discovered|..];
    } else {
      var result := UnlockOnce(link, found.value, None);
      r := if result.Ok? then Ok(None) else Err(result.error);
    }
  }

  /** The shape of every unlock phase. */
  lemma PhaseShape(t: Log, p: Prompts, r: Result<Option<string>, AppError>)
    requires UnlockPhase(t, p, r)
    ensures t != [] && |t| <= 1 + MAX_PASSWORD_ATTEMPTS && t[0].sent == Discovery
    ensures forall i :: 1 <= i < |t| ==> t[i].sent.Unlock?
    ensures forall i :: 1 <= i < |t| - 1 ==> Rejected(t[i].answer)
    ensures r.Ok? ==> |t| > 1 && Unlocked(t[|t| - 1].answer) && t[|t| - 1].sent == Unlock(r.value)
  {
    var m: Result<UnlockMethod, AppError> :| FirstMethodIs(t[0].answer, m)
      && match m
         case Err(e) => t[1..] == [] && p == [] && r == Err(e)
         case Ok(UnlockMethod(validUrl, true)) => Attempts(t[1..], p, validUrl, r)
         case Ok(UnlockMethod(validUrl, false)) =>
           && p == []
           && if validUrl then |t| == 2 && t[1].sent == Unlock(None) && r == WithPassword(t[1].answer, None)
              else |t| == 1 && r == Err(InvalidData);
    assert forall i :: 1 <= i < |t| ==> t[i] == t[1..][i - 1];
  }

  /**
   * What an unlock phase does is decided by the answer to its discovery: without a method it
   * ends there; a method that takes the master password has the user prompted, and every unlock
   * carries what was typed; any other has one unlock that carries nothing, and no prompt.
   */
  lemma PhaseByMethod(t: Log, p: Prompts, r: Result<Option<string>, AppError>)
    requires UnlockPhase(t, p, r)
    ensures
      match t[0].answer
      case Ok(Reply(status, code, Some(methods))) =>
        if 200 <= status <= 299 && methods != [] then
          if methods[0].acceptsMasterPassword then
            && p != [] && |t| <= |p| + 1 && (forall i :: 1 <= i < |t| ==> t[i].sent == Unlock(p[i - 1]) && p[i - 1].Some?)
            && (!methods[0].validUrl ==> |t| == 1 && r.Err?)
          else p == [] && if methods[0].validUrl then |t| == 2 && t[1].sent == Unlock(None) else |t| == 1 && r.Err?
        else |t| == 1 && p == [] && r.Err?
      case _ => |t| == 1 && p == [] && r.Err?
  {
    var m: Result<UnlockMethod, AppError> :| FirstMethodIs(t[0].answer, m)
      && match m
         case Err(e) => t[1..] == [] && p == [] && r == Err(e)
         case Ok(UnlockMethod(validUrl, true)) => Attempts(t[1..], p, validUrl, r)
         case Ok(UnlockMethod(validUrl, false)) =>
           && p == []
           && if validUrl then |t| == 2 && t[1].sent == Unlock(None) && r == WithPassword(t[1].answer, None)
              else |t| == 1 && r == Err(InvalidData);
    hide Rejected, WithPassword;
    assert |t[1..]| == |t| - 1;
    assert forall i :: 1 <= i < |t| ==> t[i] == t[1..][i - 1];
  }

  /**
   * With a method that takes the master password and a user who types one at every prompt,
   * unlocking succeeds exactly if the agent accepted an attempt, and it fails only after three
   * rejections or an answer that is neither. The password used is the one accepted.
   */
  lemma AttemptsEnd(t: Log, p: Prompts, validUrl: bool, r: Result<Option<string>, AppError>)
    requires Attempts(t, p, validUrl, r) && validUrl && None !in p
    ensures |t| == |p| && r.Ok? == exists i :: 0 <= i < |t| && Unlocked(t[i].answer)
    ensures r.Ok? ==> r.value == p[|p| - 1] && Unlocked(t[|t| - 1].answer)
    ensures r.Err? ==>
      || (|t| == 3 && forall i :: 0 <= i < 3 ==> Rejected(t[i].answer))
      || (!Rejected(t[|t| - 1].answer) && !Unlocked(t[|t| - 1].answer))
  {
    assert p[|p| - 1] in p;
    if r.Err? {
      assert !Unlocked(t[|t| - 1].answer);
      forall i | 0 <= i < |t| ensures !Unlocked(t[i].answer) {
        assert i < |t| - 1 ==> Rejected(t[i].answer);
      }
    }
  }

  // ----- the whole protocol -----

  /**
   * One sending of `data` as a body of `length` bytes. A completed request carries all of it,
   * and that is exactly `length` bytes. If source and connection are sound, only a body of
   * another length is given up, after as much of it as was announced.
   */
  ghost predicate Sends(e: Entry, data: bytes, length: nat, bearer: Option<string>, sound: bool) {
    match e.sent
    case Request(body, b) => body == data && |data| == length && b == bearer
    case Aborted(part, b) =>
      && part <= data && b == bearer && e.answer.Err?
      && (sound ==>
        || (|data| < length && part == data && e.answer == Err(IoFailed))
        || (|data| > length && part == data[..length] && e.answer == Err(InvalidData)))
    case _ => false
  }

  function Bearer(mode: AuthMode, password: Option<string>): Option<string> {
    if mode == ProcessOnly then None else password
  }

  function FinalResult(answer: Answer): Result<Reply, AppError> {
    match answer
    case Err(e) => Err(e)
    case Ok(reply) =>
      if IsAccessDenied(answer) then Err(ApiFailed(reply.status, "access_denied"))
      else if !IsSuccess(reply) then Err(ApiFailed(reply.status, reply.code))
      else Ok(reply)
  }

  /**
   * The messages of one call and what was typed meanwhile. The request goes first, without a
   * password. Only a denial is followed by anything: an unlock phase and, if that succeeded,
   * the same request again with the password that unlocked, if the caller wants it sent. The
   * call returns what the last sending was answered.
   */
  ghost predicate Protocol(
    t: Log, p: Prompts, data: bytes, length: nat, mode: AuthMode, sound: bool, r: Result<Reply, AppError>) {
    && t != [] && Sends(t[0], data, length, None, sound)
    && (if !IsAccessDenied(t[0].answer) then |t| == 1 && p == [] && r == FinalResult(t[0].answer)
        else |t| > 1 && exists u: Result<Option<string>, AppError> :: Retried(t, p, data, length, mode, sound, r, u))
  }

  /** After a denial: an unlock phase with the result `u`, and a second sending if that is good. */
  ghost predicate Retried(
    t: Log, p: Prompts, data: bytes, length: nat, mode: AuthMode, sound: bool, r: Result<Reply, AppError>,
    u: Result<Option<string>, AppError>)
    requires |t| > 1
  {
    if u.Err? then UnlockPhase(t[1..], p, u) && r == Err(u.error)
    else
      && UnlockPhase(t[1..|t| - 1], p, u)
      && Sends(t[|t| - 1], data, length, Bearer(mode, u.value), sound)
      && r == FinalResult(t[|t| - 1].answer)
  }

  predicate IsSending(sent: Sent) {
    sent.Request? || sent.Aborted?
  }

  function Sendings(t: Log): nat {
    if t == [] then 0 else Sendings(t[..|t| - 1]) + if IsSending(t[|t| - 1].sent) then 1 else 0
  }

  function Unlocks(t: Log): nat {
    if t == [] then 0 else Unlocks(t[..|t| - 1]) + if t[|t| - 1].sent.Unlock? then 1 else 0
  }

  lemma {:induction false} UnlockPhaseCounts(t: Log)
    requires t != [] && t[0].sent == Discovery
    requires forall i :: 1 <= i < |t| ==> t[i].sent.Unlock?
    ensures Sendings(t) == 0 && Unlocks(t) == |t| - 1
  {
    if |t| > 1 {
      UnlockPhaseCounts(t[..|t| - 1]);
    } else {
      assert t[..0] == [];
    }
  }

  lemma {:induction false} CountsConcat(a: Log, b: Log)
    ensures Sendings(a + b) == Sendings(a) + Sendings(b)
    ensures Unlocks(a + b) == Unlocks(a) + Unlocks(b)
  {
    if b == [] {
      assert a + b == a;
    } else {
      assert (a + b)[..|a + b| - 1] == a + b[..|b| - 1];
      CountsConcat(a, b[..|b| - 1]);
    }
  }

  /**
   * Every call sends its request at most twice and unlocks at most three times. It succeeds
   * only on an answer to a request that carried the whole body, and never sends again without
   * an unlock that succeeded immediately before.
   */
  lemma {:induction false} ProtocolBounds(
    t: Log, p: Prompts, data: bytes, length: nat, mode: AuthMode, sound: bool, r: Result<Reply, AppError>)
    requires Protocol(t, p, data, length, mode, sound, r)
    ensures Sendings(t) <= 2 && Unlocks(t) <= 3
    ensures r.Ok? ==>
      var last := t[|t| - 1];
      && last.answer == Ok(r.value) && IsSuccess(r.value)
      && last.sent.Request? && last.sent.body == data && |data| == length
    ensures Sendings(t) == 2 ==> |t| > 2 && t[|t| - 2].sent.Unlock? && Unlocked(t[|t| - 2].answer)
  {
    hide Sendings, Unlocks, Rejected, Unlocked, UnlockPhase, Sends, FinalResult;
    FirstIsSending(t[0], data, length, None, sound);
    FinalResultOk(t[|t| - 1].answer);
    if IsAccessDenied(t[0].answer) {
      var u: Result<Option<string>, AppError> :| Retried(t, p, data, length, mode, sound, r, u);
      if u.Err? {
        FailedBounds(t, p, u);
      } else {
        FirstIsSending(t[|t| - 1], data, length, Bearer(mode, u.value), sound);
        RetriedBounds(t, p, u);
      }
    } else {
      assert t == [t[0]];
      OneCount(t[0]);
    }
  }

  lemma FailedBounds(t: Log, p: Prompts, u: Result<Option<string>, AppError>)
    requires t != [] && IsSending(t[0].sent) && UnlockPhase(t[1..], p, u)
    ensures Sendings(t) == 1 && Unlocks(t) <= MAX_PASSWORD_ATTEMPTS
  {
    hide Sendings, Unlocks, UnlockPhase;
    assert t == [t[0]] + t[1..] + [];
    PhaseCounts(t[0], t[1..], [], p, u);
  }

  lemma RetriedBounds(t: Log, p: Prompts, u: Result<Option<string>, AppError>)
    requires |t| > 1 && IsSending(t[0].sent) && IsSending(t[|t| - 1].sent)
    requires UnlockPhase(t[1..|t| - 1], p, u) && u.Ok?
    ensures Sendings(t) == 2 && Unlocks(t) <= MAX_PASSWORD_ATTEMPTS
    ensures |t| > 2 && t[|t| - 2].sent.Unlock? && Unlocked(t[|t| - 2].answer)
  {
    hide Sendings, Unlocks, UnlockPhase, Unlocked;
    var phase := t[1..|t| - 1];
    assert t == [t[0]] + phase + [t[|t| - 1]];
    PhaseCounts(t[0], phase, [t[|t| - 1]], p, u);
    PhaseShape(phase, p, u);
    assert t[|t| - 2] == phase[|phase| - 1];
  }

  lemma FirstIsSending(e: Entry, data: bytes, length: nat, bearer: Option<string>, sound: bool)
    requires Sends(e, data, length, bearer, sound)
    ensures IsSending(e.sent) && (e.sent.Request? ==> e.sent.body == data && |data| == length)
    ensures e.sent.Aborted? ==> e.answer.Err?
  {
  }

  lemma FinalResultOk(answer: Answer)
    ensures FinalResult(answer).Ok? ==> answer == Ok(FinalResult(answer).value) && IsSuccess(answer.value)
    ensures IsAccessDenied(answer) ==> FinalResult(answer).Err?
  {
  }

  lemma OneCount(entry: Entry)
    ensures Sendings([entry]) == if IsSending(entry.sent) then 1 else 0
    ensures Unlocks([entry]) == if entry.sent.Unlock? then 1 else 0
    ensures Sendings([]) == 0 && Unlocks([]) == 0
  {
    assert [entry][..0] == [];
  }

  lemma {:induction false} PhaseCounts(first: Entry, phase: Log, after: Log, p: Prompts, u: Result<Option<string>, AppError>)
    requires IsSending(first.sent) && UnlockPhase(phase, p, u)
    requires after == [] || (|after| == 1 && IsSending(after[0].sent))
    ensures Sendings([first] + phase + after) == 1 + |after|
    ensures Unlocks([first] + phase + after) == |phase| - 1 <= MAX_PASSWORD_ATTEMPTS
  {
    hide Sendings, Unlocks, Rejected, Unlocked, UnlockPhase;
    PhaseShape(phase, p, u);
    OneCount(first);
    UnlockPhaseCounts(phase);
    if |after| == 1 {
      OneCount(after[0]);
      assert after == [after[0]];
    }
    CountsConcat([first], phase);
    CountsConcat([first] + phase, after);
  }

  /** A request whose body is in memory. */
  method RequestWithUnlockPrompt(link: Link, terminal: Terminal, body: bytes, mode: AuthMode)
    returns (r: Result<Reply, AppError>)
    modifies link`log, terminal
    ensures old(link.log) <= link.log && old(terminal.prompts) <= terminal.prompts
    ensures Protocol(
      link.log[|old(link.log)|..], terminal.prompts[|old(terminal.prompts)|..], body, |body|, mode, true, r)
  {
    hide IsSuccess, UnlockPhase;
    ghost var start, typed := link.log, terminal.prompts;
    var answer := link.Exchange(Request(body, None));
    if answer.Err? {
      return Err(answer.error);
    }
    if IsAccessDenied(answer) {
      ghost var first := Entry(Request(body, None), answer);
      var unlocked := UnlockAccess(link, terminal);
      ghost var phase, p := link.log[|start| + 1..], terminal.prompts[|typed|..];
      Grew(start + [first], link.log);
      if unlocked.Err? {
        ProtocolRefused(start, first, phase, p, body, |body|, mode, true, unlocked);
        return Err(unlocked.error);
      }
      answer := link.Exchange(Request(body, Bearer(mode, unlocked.value)));
      ghost var last := Entry(Request(body, Bearer(mode, unlocked.value)), answer);
      ProtocolRetried(start, first, phase, last, p, body, |body|, mode, true, unlocked);
    }
    r := FinalResult(answer);
  }

  lemma ProtocolRefused(
    start: Log, first: Entry, phase: Log, p: Prompts, data: bytes, length: nat, mode: AuthMode, sound: bool,
    u: Result<Option<string>, AppError>)
    requires Sends(first, data, length, None, sound) && IsAccessDenied(first.answer)
    requires u.Err? && UnlockPhase(phase, p, u)
    ensures Protocol((start + [first] + phase)[|start|..], p, data, length, mode, sound, Err(u.error))
  {
    hide UnlockPhase, Sends;
    var t := (start + [first] + phase)[|start|..];
    assert phase != [] by { PhaseShape(phase, p, u); }
    assert t == [first] + phase;
    assert t[1..] == phase;
    assert Retried(t, p, data, length, mode, sound, Err(u.error), u);
  }

  lemma ProtocolRetried(
    start: Log, first: Entry, phase: Log, last: Entry, p: Prompts, data: bytes, length: nat, mode: AuthMode,
    sound: bool, u: Result<Option<string>, AppError>)
    requires Sends(first, data, length, None, sound) && IsAccessDenied(first.answer)
    requires u.Ok? && UnlockPhase(phase, p, u)
    requires Sends(last, data, length, Bearer(mode, u.value), sound)
    ensures
      Protocol((start + [first] + phase + [last])[|start|..], p, data, length, mode, sound, FinalResult(last.answer))
  {
    hide UnlockPhase, Sends, FinalResult;
    var t := (start + [first] + phase + [last])[|start|..];
    assert t == [first] + phase + [last];
    assert t[1..|t| - 1] == phase;
    assert Retried(t, p, data, length, mode, sound, FinalResult(last.answer), u);
  }

  lemma ProtocolUnfinished(
    start: Log, first: Entry, phase: Log, p: Prompts, data: bytes, length: nat, u: Result<Option<string>, AppError>)
    requires Sends(first, data, length, None, false) && IsAccessDenied(first.answer)
    requires u.Ok? && UnlockPhase(phase, p, u)
    ensures UnfinishedProtocol((start + [first] + phase)[|start|..], p, data, length)
  {
    hide UnlockPhase, Sends;
    var t := (start + [first] + phase)[|start|..];
    assert t == [first] + phase;
    assert t[1..] == phase;
  }

  lemma Grew(before: Log, after: Log)
    requires before <= after
    ensures after == before + after[|before|..]
    ensures |after| == |before| + 1 ==> after == before + [after[|before|]]
  {
  }

  /**
   * Streams a body of an announced length. A sending that completes has carried the source
   * from its start to its end, and that is exactly the announced length. One is given up only
   * for a source or a connection that fails or a source of another length.
   */
  method RequestReader(link: Link, body: BodyReader, length: nat, bearer: Option<string>) returns (answer: Answer)
    requires body.Valid() && body.position == 0
    modifies link, body
    ensures body.Valid() && (old(body.failed) ==> body.failed) && (old(link.failed) ==> link.failed)
    ensures |link.log| == |old(link.log)| + 1 && old(link.log) <= link.log
    ensures
      var entry := link.log[|old(link.log)|];
      && entry.answer == answer && Sends(entry, body.data, length, bearer, !body.failed && !link.failed)
      && (body.failed != old(body.failed) || link.failed != old(link.failed) ==>
            entry.sent.Aborted? && answer == Err(IoFailed))
  {
    var written: bytes := [];
    var remaining: nat := length;
    while remaining > 0
      invariant body.Valid() && link.log == old(link.log)
      invariant body.failed == old(body.failed) && link.failed == old(link.failed)
      invariant written == body.data[..body.position] && |written| + remaining == length
      decreases remaining
    {
      var limit := if remaining < UPLOAD_BUFFER_BYTES then remaining else UPLOAD_BUFFER_BYTES;
      var part := body.Read(limit);
      if part.None? || part.value == [] {
        answer := link.Abort(written, bearer, IoFailed);
        return;
      }
      var ok := link.Write(part.value);
      if !ok {
        answer := link.Abort(written, bearer, IoFailed);
        return;
      }
      written := written + part.value;
      remaining := remaining - |part.value|;
    }
    var extra := body.Read(1);
    if extra.None? {
      answer := link.Abort(written, bearer, IoFailed);
      return;
    }
    if extra.value != [] {
      answer := link.Abort(written, bearer, InvalidData);
      return;
    }
    assert body.position == |body.data| && written == body.data;
    answer := link.Exchange(Request(written, bearer));
  }

  /** A request whose body is streamed, from its start each time. */
  method RequestReaderWithUnlockPrompt(
    link: Link, terminal: Terminal, body: BodyReader, length: nat, mode: AuthMode)
    returns (r: Result<Reply, AppError>)
    requires body.Valid()
    modifies link, terminal, body
    ensures body.Valid() && old(link.log) <= link.log && old(terminal.prompts) <= terminal.prompts
    ensures
      var t, p := link.log[|old(link.log)|..], terminal.prompts[|old(terminal.prompts)|..];
      || Protocol(t, p, body.data, length, mode, !body.failed && !link.failed, r)
      || (body.failed && r == Err(IoFailed) && UnfinishedProtocol(t, p, body.data, length))
  {
    hide IsSuccess, UnlockPhase, Sends;
    ghost var start, typed := link.log, terminal.prompts;
    var ready := body.SeekStart();
    if !ready {
      return Err(IoFailed);
    }
    var answer := RequestReader(link, body, length, None);
    ghost var first := link.log[|start|];
    Grew(start, link.log);
    if answer.Err? {
      return Err(answer.error);
    }
    ghost var sound := !body.failed && !link.failed;
    if IsAccessDenied(answer) {
      var unlocked := UnlockAccess(link, terminal);
      ghost var phase, p := link.log[|start| + 1..], terminal.prompts[|typed|..];
      Grew(start + [first], link.log);
      if unlocked.Err? {
        ProtocolRefused(start, first, phase, p, body.data, length, mode, sound, unlocked);
        return Err(unlocked.error);
      }
      SendsAnyway(first, body.data, length, None, sound);
      ready := body.SeekStart();
      if !ready {
        ProtocolUnfinished(start, first, phase, p, body.data, length, unlocked);
        return Err(IoFailed);
      }
      answer := RequestReader(link, body, length, Bearer(mode, unlocked.value));
      ghost var last := link.log[|start| + 1 + |phase|];
      Grew(start + [first] + phase, link.log);
      ProtocolRetried(
        start, first, phase, last, p, body.data, length, mode, !body.failed && !link.failed, unlocked);
    }
    r := FinalResult(answer);
  }

  lemma SendsAnyway(e: Entry, data: bytes, length: nat, bearer: Option<string>, sound: bool)
    requires Sends(e, data, length, bearer, sound)
    ensures Sends(e, data, length, bearer, false)
  {
  }

  /** The source could not be rewound: nothing was sent, or nothing after a successful unlock. */
  ghost predicate UnfinishedProtocol(t: Log, p: Prompts, data: bytes, length: nat) {
    || (t == [] && p == [])
    || (&& t != [] && Sends(t[0], data, length, None, false) && IsAccessDenied(t[0].answer)
        && exists u: Result<Option<string>, AppError> :: u.Ok? && UnlockPhase(t[1..], p, u))
  }

  /** The bounds hold then too: nothing was sent a second time. */
  lemma UnfinishedBounds(t: Log, p: Prompts, data: bytes, length: nat)
    requires UnfinishedProtocol(t, p, data, length)
    ensures Sendings(t) <= 1 && Unlocks(t) <= 3
  {
    hide Sendings, Unlocks, UnlockPhase, Sends;
    if t == [] {
      NoCounts();
    } else {
      FirstIsSending(t[0], data, length, None, false);
      var u: Result<Option<string>, AppError> :| u.Ok? && UnlockPhase(t[1..], p, u);
      FailedBounds(t, p, u);
    }
  }

  lemma NoCounts()
    ensures Sendings([]) == 0 && Unlocks([]) == 0
  {
  }

  // ----- answers and passwords, spelled out -----

  /** What a call makes of the answer to its last sending. */
  lemma FinalResultMeans(answer: Answer)
    ensures FinalResult(answer) ==
      match answer
      case Err(e) => Err(e)
      case Ok(Reply(status, code, methods)) =>
        if 200 <= status <= 299 then Ok(Reply(status, code, methods)) else Err(ApiFailed(status, code))
  {
  }

  /** An unlock counts as done only with status 200, and is tried again only after a refusal. */
  lemma UnlockMeans(answer: Answer)
    ensures Unlocked(answer) <==> answer.Ok? && answer.value.status == 200
    ensures UnlockResult(answer) == Ok(()) <==> Unlocked(answer)
    ensures Rejected(answer) <==>
      match answer
      case Ok(Reply(status, code, _)) => status == 403 && code in ["access_denied", "unlock_failed"]
      case Err(e) => e in [ApiFailed(403, "access_denied"), ApiFailed(403, "unlock_failed")]
  {
  }

  /**
   * Whom the password reaches: the first request goes without any; a second one carries the
   * password of the unlock before it if the caller asked for that, and else none.
   */
  lemma PasswordsSent(
    t: Log, p: Prompts, data: bytes, length: nat, mode: AuthMode, sound: bool, r: Result<Reply, AppError>)
    requires Protocol(t, p, data, length, mode, sound, r)
    ensures t != [] && BearerOf(t[0].sent) == None
    ensures |t| > 1 && IsSending(t[|t| - 1].sent) ==>
      && |t| > 2 && t[|t| - 2].sent.Unlock?
      && BearerOf(t[|t| - 1].sent) ==
           match mode
           case ProcessOnly => None
           case IncludePassword => t[|t| - 2].sent.password
  {
    hide FinalResult, UnlockPhase;
    if IsAccessDenied(t[0].answer) {
      var u: Result<Option<string>, AppError> :| Retried(t, p, data, length, mode, sound, r, u);
      var phase := if u.Err? then t[1..] else t[1..|t| - 1];
      PhaseShape(phase, p, u);
      assert t[|phase|] == phase[|phase| - 1];
    }
  }

  function BearerOf(sent: Sent): Option<string> {
    match sent
    case Request(_, bearer) => bearer
    case Aborted(_, bearer) => bearer
    case _ => None
  }

  /**
   * While source and connection are sound, a source of the announced length is sent whole each
   * time, and the call succeeds exactly if its last message is a sending that was answered with
   * a status 2xx. A source of another length fails at once, and nobody is asked for a password.
   */
  lemma SoundCall(
    t: Log, p: Prompts, data: bytes, length: nat, mode: AuthMode, r: Result<Reply, AppError>)
    requires Protocol(t, p, data, length, mode, true, r)
    ensures |data| == length ==>
      && (forall e | e in t && IsSending(e.sent) :: e.sent.Request? && e.sent.body == data)
      && (r.Ok? <==>
           var last := t[|t| - 1];
           IsSending(last.sent) && last.answer.Ok? && 200 <= last.answer.value.status <= 299)
    ensures |data| < length ==> |t| == 1 && t[0].sent == Aborted(data, None) && p == [] && r == Err(IoFailed)
    ensures |data| > length ==>
      |t| == 1 && t[0].sent == Aborted(data[..length], None) && p == [] && r == Err(InvalidData)
  {
    hide UnlockPhase;
    if IsAccessDenied(t[0].answer) {
      var u: Result<Option<string>, AppError> :| Retried(t, p, data, length, mode, true, r, u);
      var phase := if u.Err? then t[1..] else t[1..|t| - 1];
      PhaseShape(phase, p, u);
      assert forall i :: 1 <= i < 1 + |phase| ==> t[i] == phase[i - 1];
    }
  }

  /** The unlock phase follows exactly a denial: an answer of status 403 with that code. */
  lemma UnlockedAfterDenial(
    t: Log, p: Prompts, data: bytes, length: nat, mode: AuthMode, sound: bool, r: Result<Reply, AppError>)
    requires Protocol(t, p, data, length, mode, sound, r)
    ensures |t| > 1 <==> t[0].answer.Ok? && t[0].answer.value.status == 403 && t[0].answer.value.code == "access_denied"
    ensures |t| > 1 ==> t[1].sent == Discovery
  {
    hide FinalResult, Sends, UnlockPhase;
    if IsAccessDenied(t[0].answer) {
      var u: Result<Option<string>, AppError> :| Retried(t, p, data, length, mode, sound, r, u);
      var phase := if u.Err? then t[1..] else t[1..|t| - 1];
      PhaseShape(phase, p, u);
      assert t[1] == phase[0];
    }
  }
}
