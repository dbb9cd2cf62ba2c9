/**
 * The two ancestor walks as the agent runs them: `ResolveAuthorizationScope` climbs the whole
 * lineage first and then chooses the originating process; `ResolveOriginatingProcess` chooses
 * while it climbs and may stop early. Both are tied to `Lineage.ClimbOf`, and the two choices
 * are shown to agree.
 */
module Walks {
  import opened Wrappers
  import opened Bytes
  import opened ProcessModel
  import opened ScopeHashing
  import opened Lineage

  // ----- GUI application lookups -----

  datatype MatchKind = ProcessMatch | ContextMatch

  datatype GuiMatch = GuiMatch(name: string, kind: MatchKind)

  type Answers = ProcessInfo -> Option<GuiMatch>

  /** What GUI lookups answer before and after a refresh, and whether a refresh is possible. */
  datatype Catalog = Catalog(before: Answers, after: Answers, refreshable: bool) {
    function At(refreshed: bool): Answers {
      if refreshed then after else before
    }
  }

  /** The process-wide catalog: a second refresh within the cooldown is refused. */
  class GuiResolver {
    const catalog: Catalog
    var refreshed: bool

    constructor (catalog: Catalog)
      ensures this.catalog == catalog && !refreshed
    {
      this.catalog := catalog;
      this.refreshed := false;
    }

    function Answering(): Answers
      reads this`refreshed
    {
      catalog.At(refreshed)
    }

    method RefreshAfterMiss() returns (ok: bool)
      modifies this`refreshed
      ensures ok == (catalog.refreshable && !old(refreshed))
      ensures refreshed == (old(refreshed) || ok)
    {
      ok := catalog.refreshable && !refreshed;
      if ok {
        refreshed := true;
      }
    }
  }

  predicate IsGuiProcess(answers: Answers, p: ProcessInfo) {
    answers(p).Some? && answers(p).value.kind == ProcessMatch
  }

  /** The first GUI process of a peer-first chain. */
  function FirstGui(answers: Answers, chain: seq<ProcessInfo>): (found: Option<ProcessInfo>)
    ensures found.Some? ==> IsGuiProcess(answers, found.value)
  {
    if chain == [] then None
    else if IsGuiProcess(answers, chain[0]) then Some(chain[0])
    else FirstGui(answers, chain[1..])
  }

  /** The same search over an ancestor-first chain, from its end. */
  function LastGui(answers: Answers, chain: seq<ProcessInfo>): Option<ProcessInfo> {
    if chain == [] then None
    else if IsGuiProcess(answers, chain[|chain| - 1]) then Some(chain[|chain| - 1])
    else LastGui(answers, chain[..|chain| - 1])
  }

  // ----- session boundaries -----

  predicate SessionsDiffer(child: ProcessInfo, parent: ProcessInfo) {
    child.sessionId.Some? && parent.sessionId.Some? && child.sessionId != parent.sessionId
  }

  /** The process nearest to the peer whose parent runs in another session, peer first. */
  function FirstBoundary(chain: seq<ProcessInfo>): Option<ProcessInfo> {
    if |chain| < 2 then None
    else if SessionsDiffer(chain[0], chain[1]) then Some(chain[0])
    else FirstBoundary(chain[1..])
  }

  /** The same search over adjacent pairs of an ancestor-first chain, from its end. */
  function NearestSessionBoundary(chain: seq<ProcessInfo>): Option<ProcessInfo> {
    if |chain| < 2 then None
    else if SessionsDiffer(chain[|chain| - 1], chain[|chain| - 2]) then Some(chain[|chain| - 1])
    else NearestSessionBoundary(chain[..|chain| - 1])
  }

  function Reversed(chain: seq<ProcessInfo>): (r: seq<ProcessInfo>)
    ensures |r| == |chain|
  {
    if chain == [] then [] else Reversed(chain[1..]) + [chain[0]]
  }

  lemma {:induction false} ReversedEnds(chain: seq<ProcessInfo>)
    requires chain != []
    ensures Reversed(chain)[|chain| - 1] == chain[0]
    ensures Reversed(chain)[..|chain| - 1] == Reversed(chain[1..])
    ensures Reversed(chain)[0] == chain[|chain| - 1]
  {
    if |chain| > 1 {
      ReversedEnds(chain[1..]);
    }
  }

  lemma {:induction false} SearchesMirror(answers: Answers, chain: seq<ProcessInfo>)
    ensures LastGui(answers, Reversed(chain)) == FirstGui(answers, chain)
    ensures NearestSessionBoundary(Reversed(chain)) == FirstBoundary(chain)
  {
    if chain != [] {
      ReversedEnds(chain);
      SearchesMirror(answers, chain[1..]);
      if |chain| > 1 {
        ReversedEnds(chain[1..]);
        assert Reversed(chain)[|chain| - 2] == Reversed(chain)[..|chain| - 1][|chain| - 2];
      }
    }
  }

  // ----- the originating process -----

  /** Who is found after an optional refresh, or else the given fallback. */
  ghost function GuiOrElse(
    catalog: Catalog, refreshed: bool, chain: seq<ProcessInfo>, fallback: Option<ProcessInfo>): Option<ProcessInfo>
  {
    var first := FirstGui(catalog.At(refreshed), chain);
    var second := if catalog.refreshable && !refreshed then FirstGui(catalog.after, chain) else None;
    if first.Some? then first else if second.Some? then second else fallback
  }

  /** A lookup that misses before any refresh leaves the catalog refreshed, if it can be. */
  ghost predicate RefreshedAfter(catalog: Catalog, refreshed: bool, chain: seq<ProcessInfo>) {
    refreshed || (catalog.refreshable && FirstGui(catalog.before, chain).None?)
  }

  ghost function BoundaryOrTop(chain: seq<ProcessInfo>): Option<ProcessInfo>
    requires chain != []
  {
    if FirstBoundary(chain).Some? then FirstBoundary(chain) else Some(chain[|chain| - 1])
  }

  /** The originating process the early-exit walk settles on, whatever way its climb ends. */
  ghost function OriginatingOf(catalog: Catalog, refreshed: bool, climb: Climb): Option<ProcessInfo> {
    match climb
    case Complete(chain) =>
      if chain == [] then None else GuiOrElse(catalog, refreshed, chain, BoundaryOrTop(chain))
    case Foreign(chain, reached) => GuiOrElse(catalog, refreshed, chain, FirstBoundary(reached))
    case Cut(chain, reached) => GuiOrElse(catalog, refreshed, chain, FirstBoundary(reached))
  }

  method OriginatingProcessFromChain(chain: seq<ProcessInfo>, ghost peerFirst: seq<ProcessInfo>, gui: GuiResolver)
    returns (process: Option<ProcessInfo>)
    requires peerFirst != [] && chain == Reversed(peerFirst)
    modifies gui`refreshed
    ensures process == GuiOrElse(gui.catalog, old(gui.refreshed), peerFirst, BoundaryOrTop(peerFirst))
    ensures process.Some?
    ensures gui.refreshed == RefreshedAfter(gui.catalog, old(gui.refreshed), peerFirst)
  {
    SearchesMirror(gui.catalog.before, peerFirst);
    SearchesMirror(gui.catalog.after, peerFirst);
    ReversedEnds(peerFirst);
    process := LastGui(gui.Answering(), chain);
    if process.None? {
      var again := gui.RefreshAfterMiss();
      if again {
        process := LastGui(gui.Answering(), chain);
      }
    }
    if process.None? {
      process := NearestSessionBoundary(chain);
    }
    if process.None? {
      process := Some(chain[0]);
    }
  }

  method NarrowerOriginatingProcessHash(
    uid: u32, chain: seq<ProcessInfo>, sessionCandidate: Option<ProcessInfo>, gui: GuiResolver, ghost climb: Climb)
    returns (hash: Option<ScopeHash>)
    requires Abandoned(climb, chain, sessionCandidate)
    modifies gui`refreshed
    ensures hash == OriginatingHash(uid, OriginatingOf(gui.catalog, old(gui.refreshed), climb))
  {
    var process := FirstGui(gui.Answering(), chain);
    if process.None? {
      var again := gui.RefreshAfterMiss();
      if again {
        process := FirstGui(gui.Answering(), chain);
      }
    }
    if process.None? {
      process := sessionCandidate;
    }
    match process {
      case None => hash := None;
      case Some(p) =>
        var h := HashOriginatingProcess(uid, p);
        hash := Some(h);
    }
  }

  ghost function OriginatingHash(uid: u32, process: Option<ProcessInfo>): Option<ScopeHash> {
    match process
    case None => None
    case Some(p) => Some(ScopeHash(OriginatingProcess(uid, p.instance).Preimage()))
  }

  lemma {:induction false} FirstGuiPrefix(answers: Answers, part: seq<ProcessInfo>, whole: seq<ProcessInfo>)
    requires part <= whole && FirstGui(answers, part).Some?
    ensures FirstGui(answers, whole) == FirstGui(answers, part)
  {
    if !IsGuiProcess(answers, part[0]) {
      FirstGuiPrefix(answers, part[1..], whole[1..]);
    }
  }

  lemma {:induction false} FirstGuiSnoc(answers: Answers, chain: seq<ProcessInfo>, last: ProcessInfo)
    requires FirstGui(answers, chain).None?
    ensures FirstGui(answers, chain + [last]) == if IsGuiProcess(answers, last) then Some(last) else None
  {
    if chain != [] {
      assert (chain + [last])[1..] == chain[1..] + [last];
      FirstGuiSnoc(answers, chain[1..], last);
    } else {
      assert chain + [last] == [last];
    }
  }

  lemma {:induction false} FirstBoundarySnoc(chain: seq<ProcessInfo>, child: ProcessInfo, parent: ProcessInfo)
    ensures FirstBoundary(chain + [child] + [parent]) ==
      if FirstBoundary(chain + [child]).Some? then FirstBoundary(chain + [child])
      else if SessionsDiffer(child, parent) then Some(child) else None
  {
    if chain == [] {
      assert chain + [child] + [parent] == [child, parent];
    } else {
      assert (chain + [child] + [parent])[1..] == chain[1..] + [child] + [parent];
      assert (chain + [child])[1..] == chain[1..] + [child];
      FirstBoundarySnoc(chain[1..], child, parent);
    }
  }

  /** Keeps the first boundary ever recorded. */
  function RecordNearestSessionBoundary(
    candidate: Option<ProcessInfo>, child: ProcessInfo, parent: ProcessInfo): Option<ProcessInfo>
  {
    if candidate.None? && SessionsDiffer(child, parent) then Some(child) else candidate
  }

  /** The state of the early-exit walk: it has met no GUI process and knows the nearest boundary so far. */
  ghost predicate Climbing(
    answers: Answers, r: Resolver, uid: u32, climb: Climb, chain: seq<ProcessInfo>, current: ProcessInfo,
    crossed: bool, budget: nat, candidate: Option<ProcessInfo>)
  {
    && climb == ClimbFrom(r, uid, chain, current, crossed, budget)
    && FirstGui(answers, chain).None?
    && candidate == FirstBoundary(chain + [current])
  }

  /** The climb ended without completing, and `candidate` is the nearest boundary it reached. */
  ghost predicate Abandoned(climb: Climb, chain: seq<ProcessInfo>, candidate: Option<ProcessInfo>) {
    (climb.Foreign? || climb.Cut?) && climb.chain == chain && candidate == FirstBoundary(climb.reached)
  }

  ghost predicate Acceptable(uid: u32, chain: seq<ProcessInfo>, current: ProcessInfo, budget: nat) {
    budget > 0 && current.uid == uid && !HasPid(chain, current.Pid())
  }

  lemma ClimbStarts(answers: Answers, r: Resolver, uid: u32, peer: ProcessInfo)
    ensures Climbing(answers, r, uid, ClimbOf(r, uid, peer), [], peer, false, MAX_PROCESS_CHAIN_DEPTH, None)
  {
  }

  lemma ClimbStops(
    answers: Answers, r: Resolver, uid: u32, climb: Climb, chain: seq<ProcessInfo>, current: ProcessInfo,
    crossed: bool, budget: nat, candidate: Option<ProcessInfo>)
    requires Climbing(answers, r, uid, climb, chain, current, crossed, budget, candidate)
    requires !Acceptable(uid, chain, current, budget)
    ensures Abandoned(climb, chain, candidate)
  {
    hide FirstBoundary, HasPid;
  }

  /** Accepting `current`: what becomes of the climb, by what lies above it. */
  lemma ClimbGoesOn(
    answers: Answers, r: Resolver, uid: u32, climb: Climb, chain: seq<ProcessInfo>, current: ProcessInfo,
    crossed: bool, budget: nat, candidate: Option<ProcessInfo>)
    requires Climbing(answers, r, uid, climb, chain, current, crossed, budget, candidate)
    requires Acceptable(uid, chain, current, budget) && !IsGuiProcess(answers, current)
    ensures
      var longer := chain + [current];
      var step := NextStep(r, uid, crossed, current);
      && (current.parentPid <= 0 ==> climb == Complete(longer))
      && (current.parentPid > 0 && (budget == 1 || step.Vanished?) ==> Abandoned(climb, longer, candidate))
      && (current.parentPid > 0 && budget > 1 ==>
            && (step.Top? ==> climb == Complete(longer))
            && (step.Parent? ==>
                  Climbing(answers, r, uid, climb, longer, step.parent, crossed, budget - 1,
                    RecordNearestSessionBoundary(candidate, current, step.parent)))
            && (step.Bridged? ==>
                  Climbing(answers, r, uid, climb, longer, step.parent, true, budget - 2,
                    RecordNearestSessionBoundary(candidate, current, step.parent))))
  {
    hide FirstBoundary, FirstGui, HasPid, SessionsDiffer, NextStep;
    var step := NextStep(r, uid, crossed, current);
    FirstGuiSnoc(answers, chain, current);
    if step.Parent? || step.Bridged? {
      FirstBoundarySnoc(chain, current, step.parent);
    }
  }

  /** A GUI process met on the way up is the one a search over the whole climb would find. */
  lemma EarlyExit(
    catalog: Catalog, refreshed: bool, r: Resolver, uid: u32, climb: Climb, chain: seq<ProcessInfo>,
    current: ProcessInfo, crossed: bool, budget: nat, candidate: Option<ProcessInfo>)
    requires Climbing(catalog.At(refreshed), r, uid, climb, chain, current, crossed, budget, candidate)
    requires Acceptable(uid, chain, current, budget) && IsGuiProcess(catalog.At(refreshed), current)
    ensures OriginatingOf(catalog, refreshed, climb) == Some(current)
  {
    hide FirstGui;
    ClimbExtends(r, uid, chain, current, crossed, budget);
    FirstGuiSnoc(catalog.At(refreshed), chain, current);
    FirstGuiPrefix(catalog.At(refreshed), chain + [current], climb.chain);
  }

  /**
   * The early-exit walk. It leaves as soon as it meets a GUI process and tracks the session
   * candidate step by step, yet returns what a search over the finished climb returns.
   */
  method ResolveOriginatingProcess(peerPid: i32, peerUid: u32, r: Resolver, gui: GuiResolver)
    returns (hash: Option<ScopeHash>)
    modifies gui`refreshed
    ensures peerPid !in r.infos || r.infos[peerPid].uid != peerUid ==> hash == None
    ensures peerPid in r.infos && r.infos[peerPid].uid == peerUid ==>
      hash == OriginatingHash(peerUid,
        OriginatingOf(gui.catalog, old(gui.refreshed), ClimbOf(r, peerUid, r.infos[peerPid])))
  {
    hide Climbing, Abandoned, ClimbOf, HasPid, NextStep, OriginatingOf, OriginatingHash,
      RecordNearestSessionBoundary, IsGuiProcess;
    if peerPid !in r.infos {
      return None;
    }
    var current := r.infos[peerPid];
    if current.uid != peerUid {
      return None;
    }

    var chain: seq<ProcessInfo> := [];
    var crossed := false;
    var remaining: nat := MAX_PROCESS_CHAIN_DEPTH;
    var candidate: Option<ProcessInfo> := None;
    ghost var climb := ClimbOf(r, peerUid, current);
    ClimbStarts(gui.Answering(), r, peerUid, current);

    while true
      invariant Climbing(gui.Answering(), r, peerUid, climb, chain, current, crossed, remaining, candidate)
      invariant gui.refreshed == old(gui.refreshed)
      decreases remaining
    {
      ghost var budget := remaining;
      if remaining == 0 || current.uid != peerUid {
        ClimbStops(gui.Answering(), r, peerUid, climb, chain, current, crossed, budget, candidate);
        hash := NarrowerOriginatingProcessHash(peerUid, chain, candidate, gui, climb);
        return;
      }
      remaining := remaining - 1;
      if HasPid(chain, current.Pid()) {
        ClimbStops(gui.Answering(), r, peerUid, climb, chain, current, crossed, budget, candidate);
        hash := NarrowerOriginatingProcessHash(peerUid, chain, candidate, gui, climb);
        return;
      }

      if IsGuiProcess(gui.Answering(), current) {
        EarlyExit(gui.catalog, gui.refreshed, r, peerUid, climb, chain, current, crossed, budget, candidate);
        hash := OriginatingProcessHash(peerUid, current);
        return;
      }

      ClimbGoesOn(gui.Answering(), r, peerUid, climb, chain, current, crossed, budget, candidate);
      chain := chain + [current];
      if current.parentPid <= 0 {
        break;
      }
      if remaining == 0 {
        hash := NarrowerOriginatingProcessHash(peerUid, chain, candidate, gui, climb);
        return;
      }

      match NextStep(r, peerUid, crossed, current) {
        case Vanished =>
          hash := NarrowerOriginatingProcessHash(peerUid, chain, candidate, gui, climb);
          return;
        case Top =>
          break;
        case Bridged(parent) =>
          candidate := RecordNearestSessionBoundary(candidate, current, parent);
          crossed := true;
          remaining := remaining - 1;
          current := parent;
        case Parent(parent) =>
          candidate := RecordNearestSessionBoundary(candidate, current, parent);
          current := parent;
      }
    }

    hash := WholeOriginatingProcessHash(peerUid, chain, gui);
  }

  method OriginatingProcessHash(uid: u32, process: ProcessInfo) returns (hash: Option<ScopeHash>)
    ensures hash == OriginatingHash(uid, Some(process))
  {
    var h := HashOriginatingProcess(uid, process);
    hash := Some(h);
  }

  method WholeOriginatingProcessHash(uid: u32, peerFirst: seq<ProcessInfo>, gui: GuiResolver)
    returns (hash: Option<ScopeHash>)
    requires peerFirst != []
    modifies gui`refreshed
    ensures hash == OriginatingHash(uid, OriginatingOf(gui.catalog, old(gui.refreshed), Complete(peerFirst)))
  {
    var originating := OriginatingProcessFromChain(Reversed(peerFirst), peerFirst, gui);
    var h := HashOriginatingProcess(uid, originating.value);
    hash := Some(h);
  }

  // ----- what the prompt displays -----

  datatype Application = Application(name: string, sameAsPrimary: bool)

  datatype Display = Display(primary: ProcessInfo, application: Option<Application>)

  predicate Presentable(agent: Option<Executable>, p: ProcessInfo) {
    p.executable.Some? && p.executablePath.Some? && p.executable != agent
  }

  /** The last presentable process of an ancestor-first chain, else the last one with a path. */
  function Primary(agent: Option<Executable>, chain: seq<ProcessInfo>): (p: Option<ProcessInfo>) {
    var best := LastWith((q: ProcessInfo) => Presentable(agent, q), chain);
    if best.Some? then best else LastWith((q: ProcessInfo) => q.executablePath.Some?, chain)
  }

  function LastWith(good: ProcessInfo -> bool, chain: seq<ProcessInfo>): Option<ProcessInfo> {
    if chain == [] then None
    else if good(chain[|chain| - 1]) then Some(chain[|chain| - 1])
    else LastWith(good, chain[..|chain| - 1])
  }

  predicate SameApplication(p: ProcessInfo, primary: ProcessInfo) {
    p.instance == primary.instance || (p.executable.Some? && primary.executable == p.executable)
  }

  function FirstMatch(answers: Answers, chain: seq<ProcessInfo>): (found: Option<ProcessInfo>)
    ensures found.Some? ==> answers(found.value).Some?
  {
    if chain == [] then None
    else if answers(chain[0]).Some? then Some(chain[0])
    else FirstMatch(answers, chain[1..])
  }

  /** A GUI process beats any context match, however near; contexts never equal the primary. */
  ghost function ApplicationOf(answers: Answers, chain: seq<ProcessInfo>, primary: ProcessInfo): Option<Application> {
    match FirstGui(answers, chain)
    case Some(p) => Some(Application(answers(p).value.name, SameApplication(p, primary)))
    case None =>
      match FirstMatch(answers, chain)
      case Some(p) => Some(Application(answers(p).value.name, false))
      case None => None
  }

  lemma {:induction false} FirstMatchSnoc(answers: Answers, chain: seq<ProcessInfo>, last: ProcessInfo)
    ensures FirstMatch(answers, chain + [last]) ==
      if FirstMatch(answers, chain).Some? then FirstMatch(answers, chain)
      else if answers(last).Some? then Some(last) else None
  {
    if chain != [] {
      assert (chain + [last])[1..] == chain[1..] + [last];
      FirstMatchSnoc(answers, chain[1..], last);
    } else {
      assert chain + [last] == [last];
    }
  }

  lemma {:induction false} ReversedAt(chain: seq<ProcessInfo>, k: nat)
    requires k < |chain|
    ensures Reversed(chain)[|chain| - 1 - k] == chain[k]
  {
    ReversedEnds(chain);
    if k > 0 {
      ReversedAt(chain[1..], k - 1);
      assert Reversed(chain)[..|chain| - 1][|chain| - 1 - k] == Reversed(chain)[|chain| - 1 - k];
    }
  }

  /** One pass over the chain that remembers the nearest context match on the way. */
  method ResolveGuiApplication(
    answers: Answers, chain: seq<ProcessInfo>, primary: ProcessInfo, ghost peerFirst: seq<ProcessInfo>)
    returns (application: Option<Application>)
    requires chain == Reversed(peerFirst)
    ensures application == ApplicationOf(answers, peerFirst, primary)
  {
    var context: Option<Application> := None;
    for k := 0 to |chain|
      invariant FirstGui(answers, peerFirst[..k]).None?
      invariant context == ApplicationOf(answers, peerFirst[..k], primary)
    {
      var process := chain[|chain| - 1 - k];
      ReversedAt(peerFirst, k);
      assert peerFirst[..k + 1] == peerFirst[..k] + [process];
      FirstGuiSnoc(answers, peerFirst[..k], process);
      FirstMatchSnoc(answers, peerFirst[..k], process);
      match answers(process) {
        case None =>
        case Some(found) =>
          if found.kind == ProcessMatch {
            FirstGuiPrefix(answers, peerFirst[..k + 1], peerFirst);
            return Some(Application(found.name, SameApplication(process, primary)));
          }
          if context.None? {
            context := Some(Application(found.name, false));
          }
      }
    }
    assert peerFirst[..|chain|] == peerFirst;
    application := context;
  }

  ghost function DisplayOf(
    catalog: Catalog, refreshed: bool, agent: Option<Executable>, peerFirst: seq<ProcessInfo>): Option<Display>
  {
    match Primary(agent, Reversed(peerFirst))
    case None => None
    case Some(primary) =>
      var first := ApplicationOf(catalog.At(refreshed), peerFirst, primary);
      var second :=
        if catalog.refreshable && !refreshed then ApplicationOf(catalog.after, peerFirst, primary) else None;
      Some(Display(primary, if first.Some? then first else second))
  }

  ghost predicate RefreshedByDisplay(
    catalog: Catalog, refreshed: bool, agent: Option<Executable>, peerFirst: seq<ProcessInfo>)
  {
    || refreshed
    || (&& catalog.refreshable
        && Primary(agent, Reversed(peerFirst)).Some?
        && FirstMatch(catalog.before, peerFirst).None?
        && FirstGui(catalog.before, peerFirst).None?)
  }

  method ProcessDisplayFromChain(
    chain: seq<ProcessInfo>, agent: Option<Executable>, gui: GuiResolver, ghost peerFirst: seq<ProcessInfo>)
    returns (display: Option<Display>)
    requires chain == Reversed(peerFirst)
    modifies gui`refreshed
    ensures display == DisplayOf(gui.catalog, old(gui.refreshed), agent, peerFirst)
    ensures gui.refreshed == RefreshedByDisplay(gui.catalog, old(gui.refreshed), agent, peerFirst)
  {
    var primary := Primary(agent, chain);
    if primary.None? {
      return None;
    }
    var application := ResolveGuiApplication(gui.Answering(), chain, primary.value, peerFirst);
    if application.None? {
      var again := gui.RefreshAfterMiss();
      if again {
        application := ResolveGuiApplication(gui.Answering(), chain, primary.value, peerFirst);
      }
    }
    display := Some(Display(primary.value, application));
  }

  // ----- the full walk -----

  datatype Ultimate = Ultimate(executable: Option<Executable>, executablePath: Option<string>)

  datatype ResolvedScope = ResolvedScope(
    hash: ScopeHash, originatingHash: ScopeHash, display: Option<Display>, ultimate: Ultimate)

  function StableChain(chain: seq<ProcessInfo>): (identities: seq<StableIdentity>)
    ensures |identities| == |chain|
  {
    if chain == [] then [] else [chain[0].Stable()] + StableChain(chain[1..])
  }

  /** The scope granted to a lineage: anchored at its top, identities from the top down. */
  ghost function ScopeOf(uid: u32, peerFirst: seq<ProcessInfo>): AuthorizationScope
    requires peerFirst != []
  {
    AuthorizationScope(uid, peerFirst[|peerFirst| - 1].instance, StableChain(Reversed(peerFirst)))
  }

  /** What the full walk returns for a finished climb. */
  ghost function AuthorizationOf(
    catalog: Catalog, refreshed: bool, uid: u32, agent: Option<Executable>, climb: Climb): Option<ResolvedScope>
  {
    if climb.Cut? || climb.chain == [] then None
    else
      var chain := climb.chain;
      var originating := GuiOrElse(catalog, refreshed, chain, BoundaryOrTop(chain)).value;
      Some(ResolvedScope(
        ScopeHash(ProcessChain(ScopeOf(uid, chain)).Preimage()),
        ScopeHash(OriginatingProcess(uid, originating.instance).Preimage()),
        DisplayOf(catalog, refreshed, agent, chain),
        Ultimate(chain[0].executable, chain[0].executablePath)))
  }

  /** A refresh made along the way never changes whom a lookup finds. */
  lemma RefreshKeepsChoice(
    catalog: Catalog, earlier: bool, later: bool, chain: seq<ProcessInfo>, fallback: Option<ProcessInfo>)
    requires earlier ==> later
    requires later && !earlier ==> catalog.refreshable && FirstGui(catalog.before, chain).None?
    ensures GuiOrElse(catalog, later, chain, fallback) == GuiOrElse(catalog, earlier, chain, fallback)
  {
  }

  method ResolveAuthorizationScope(
    peerPid: i32, peerUid: u32, r: Resolver, gui: GuiResolver, agent: Option<Executable>)
    returns (scope: Option<ResolvedScope>)
    modifies gui`refreshed
    ensures peerPid !in r.infos || r.infos[peerPid].uid != peerUid ==> scope == None
    ensures peerPid in r.infos && r.infos[peerPid].uid == peerUid ==>
      scope == AuthorizationOf(gui.catalog, old(gui.refreshed), peerUid, agent,
        ClimbOf(r, peerUid, r.infos[peerPid]))
  {
    if peerPid !in r.infos {
      return None;
    }
    var current := r.infos[peerPid];
    if current.uid != peerUid {
      return None;
    }

    var chain: seq<ProcessInfo> := [];
    var crossed := false;
    var remaining: nat := MAX_PROCESS_CHAIN_DEPTH;
    ghost var climb := ClimbOf(r, peerUid, current);
    hide HasPid, NextStep, Grantee.Preimage, BoundaryOrTop, GuiOrElse, DisplayOf, ScopeOf;

    while true
      invariant climb == ClimbFrom(r, peerUid, chain, current, crossed, remaining)
      decreases remaining
    {
      if remaining == 0 {
        return None;
      }
      remaining := remaining - 1;

      if current.uid != peerUid {
        break;
      }
      if HasPid(chain, current.Pid()) {
        return None;
      }

      chain := chain + [current];
      if current.parentPid <= 0 {
        break;
      }
      if remaining == 0 {
        return None;
      }

      match NextStep(r, peerUid, crossed, current) {
        case Vanished =>
          return None;
        case Top =>
          break;
        case Bridged(parent) =>
          crossed := true;
          remaining := remaining - 1;
          current := parent;
        case Parent(parent) =>
          current := parent;
      }
    }

    if chain == [] {
      return None;
    }
    scope := ScopeFromChain(peerUid, chain, gui, agent);
  }

  method ScopeFromChain(uid: u32, peerFirst: seq<ProcessInfo>, gui: GuiResolver, agent: Option<Executable>)
    returns (scope: Option<ResolvedScope>)
    requires peerFirst != []
    modifies gui`refreshed
    ensures scope == AuthorizationOf(gui.catalog, old(gui.refreshed), uid, agent, Complete(peerFirst))
  {
    ReversedEnds(peerFirst);
    var chain := Reversed(peerFirst);
    var hash := HashAuthorizationScope(AuthorizationScope(uid, chain[0].instance, StableChain(chain)));
    var last := chain[|chain| - 1];
    var display := ProcessDisplayFromChain(chain, agent, gui, peerFirst);
    RefreshKeepsChoice(gui.catalog, old(gui.refreshed), gui.refreshed, peerFirst, BoundaryOrTop(peerFirst));
    var originating := OriginatingProcessFromChain(chain, peerFirst, gui);
    var originatingHash := HashOriginatingProcess(uid, originating.value);
    scope := Some(ResolvedScope(hash, originatingHash, display, Ultimate(last.executable, last.executablePath)));
  }

  // ----- the two walks agree -----

  /** The state the full walk leaves the GUI catalog in. */
  ghost predicate RefreshedByFullWalk(
    catalog: Catalog, refreshed: bool, agent: Option<Executable>, chain: seq<ProcessInfo>)
  {
    RefreshedAfter(catalog, RefreshedByDisplay(catalog, refreshed, agent, chain), chain)
  }

  /**
   * Whenever the full walk grants a scope, the early-exit walk of the same peer returns
   * exactly its originating-process hash.
   */
  lemma WalksAgree(
    catalog: Catalog, refreshed: bool, r: Resolver, peer: ProcessInfo, agent: Option<Executable>)
    requires r.BridgesKeepUid()
    requires AuthorizationOf(catalog, refreshed, peer.uid, agent, ClimbOf(r, peer.uid, peer)).Some?
    ensures
      var climb := ClimbOf(r, peer.uid, peer);
      var granted := AuthorizationOf(catalog, refreshed, peer.uid, agent, climb).value.originatingHash;
      OriginatingHash(peer.uid, OriginatingOf(catalog, refreshed, climb)) == Some(granted)
  {
    NeverForeign(r, peer.uid, [], peer, false, MAX_PROCESS_CHAIN_DEPTH);
  }

  /** So it does on the catalog as the full walk leaves it. */
  lemma WalksAgreeAfterRefresh(
    catalog: Catalog, refreshed: bool, r: Resolver, peer: ProcessInfo, agent: Option<Executable>)
    requires r.BridgesKeepUid()
    requires AuthorizationOf(catalog, refreshed, peer.uid, agent, ClimbOf(r, peer.uid, peer)).Some?
    ensures
      var climb := ClimbOf(r, peer.uid, peer);
      var granted := AuthorizationOf(catalog, refreshed, peer.uid, agent, climb).value.originatingHash;
      var left := RefreshedByFullWalk(catalog, refreshed, agent, climb.chain);
      OriginatingHash(peer.uid, OriginatingOf(catalog, left, climb)) == Some(granted)
  {
    var climb := ClimbOf(r, peer.uid, peer);
    NeverForeign(r, peer.uid, [], peer, false, MAX_PROCESS_CHAIN_DEPTH);
    RefreshKeepsChoice(catalog, refreshed, RefreshedByFullWalk(catalog, refreshed, agent, climb.chain),
      climb.chain, BoundaryOrTop(climb.chain));
  }

  /**
   * Without the platform's promise the walks part in one case exactly: a bridge leads into
   * another user, and neither a GUI process nor a session boundary was met up to there. The
   * full walk then names the top of the chain, the early-exit walk nobody.
   */
  lemma WalksPartIff(
    catalog: Catalog, refreshed: bool, r: Resolver, peer: ProcessInfo, agent: Option<Executable>)
    requires AuthorizationOf(catalog, refreshed, peer.uid, agent, ClimbOf(r, peer.uid, peer)).Some?
    ensures
      var climb := ClimbOf(r, peer.uid, peer);
      var granted := AuthorizationOf(catalog, refreshed, peer.uid, agent, climb).value.originatingHash;
      var early := OriginatingHash(peer.uid, OriginatingOf(catalog, refreshed, climb));
      early != Some(granted) <==>
        && climb.Foreign?
        && GuiOrElse(catalog, refreshed, climb.chain, None).None?
        && FirstBoundary(climb.reached).None?
  {
    var climb := ClimbOf(r, peer.uid, peer);
    if climb.Foreign? {
      ForeignReached(r, peer.uid, [], peer, false, MAX_PROCESS_CHAIN_DEPTH);
      BoundaryOfReached(climb.chain, climb.reached);
    }
    hide Grantee.Preimage, FirstGui, DisplayOf, ScopeOf, ClimbOf, FirstBoundary, BoundaryOrTop;
  }

  /** A platform that takes a process of another user for the login parent of the peer. */
  function Bridging(peer: ProcessInfo, other: ProcessInfo): Resolver {
    Resolver(map[], map[peer.parentPid := other.uid], map[(peer, peer.parentPid, peer.uid) := other])
  }

  /**
   * The walks do part then, for any two processes of different users with no session boundary
   * between them and a catalog that knows neither.
   */
  lemma WalksPartAtForeignBridge(catalog: Catalog, peer: ProcessInfo, other: ProcessInfo, agent: Option<Executable>)
    requires peer.parentPid > 0 && other.uid != peer.uid && !SessionsDiffer(peer, other)
    requires forall p :: catalog.before(p) == None && catalog.after(p) == None
    ensures
      var climb := ClimbOf(Bridging(peer, other), peer.uid, peer);
      && !Bridging(peer, other).BridgesKeepUid()
      && AuthorizationOf(catalog, false, peer.uid, agent, climb).Some?
      && OriginatingHash(peer.uid, OriginatingOf(catalog, false, climb)) == None
  {
    assert (peer, peer.parentPid, peer.uid) in Bridging(peer, other).bridges;
    ForeignClimb(peer, other);
    NoGuiFound(catalog.before, [peer]);
    NoGuiFound(catalog.after, [peer]);
    assert [peer, other][1..] == [other];
    assert FirstBoundary([peer, other]) == FirstBoundary([other]) == None;
    hide FirstBoundary, ClimbOf, FirstGui, DisplayOf, Grantee.Preimage, ScopeOf;
  }

  lemma ForeignClimb(peer: ProcessInfo, other: ProcessInfo)
    requires peer.parentPid > 0 && other.uid != peer.uid
    ensures ClimbOf(Bridging(peer, other), peer.uid, peer) == Foreign([peer], [peer, other])
  {
    var r := Bridging(peer, other);
    assert (peer, peer.parentPid, peer.uid) in r.bridges;
    assert NextStep(r, peer.uid, false, peer) == Bridged(other);
    hide NextStep, Bridging;
    assert [] + [peer] == [peer] && [peer] + [other] == [peer, other];
  }

  lemma {:induction false} NoGuiFound(answers: Answers, chain: seq<ProcessInfo>)
    requires forall p :: answers(p) == None
    ensures FirstGui(answers, chain) == None
  {
    if chain != [] {
      NoGuiFound(answers, chain[1..]);
    }
  }

  /** A boundary met on the way to one process more is the one the chain itself yields. */
  lemma BoundaryOfReached(chain: seq<ProcessInfo>, reached: seq<ProcessInfo>)
    requires chain != [] && |reached| == |chain| + 1 && chain == reached[..|chain|]
    ensures FirstBoundary(reached).Some? ==> FirstBoundary(reached) == BoundaryOrTop(chain)
  {
    var n := |chain|;
    var top, other := chain[n - 1], reached[n];
    assert chain == chain[..n - 1] + [top];
    assert reached == chain[..n - 1] + [top] + [other];
    FirstBoundarySnoc(chain[..n - 1], top, other);
  }

  lemma {:induction false} ForeignReached(
    r: Resolver, uid: u32, chain: seq<ProcessInfo>, current: ProcessInfo, crossed: bool, budget: nat)
    ensures var climb := ClimbFrom(r, uid, chain, current, crossed, budget);
      climb.Foreign? ==> |climb.reached| == |climb.chain| + 1 && climb.chain == climb.reached[..|climb.chain|]
    decreases budget
  {
    if budget > 1 && current.uid == uid && !HasPid(chain, current.Pid()) && current.parentPid > 0 {
      var longer := chain + [current];
      match NextStep(r, uid, crossed, current) {
        case Parent(p) => ForeignReached(r, uid, longer, p, crossed, budget - 1);
        case Bridged(p) => ForeignReached(r, uid, longer, p, true, budget - 2);
        case _ =>
      }
    }
  }

  /** An application named in the prompt by a process match is the originating process. */
  lemma DisplayedProcessOriginates(
    catalog: Catalog, refreshed: bool, uid: u32, agent: Option<Executable>, chain: seq<ProcessInfo>)
    requires chain != [] && FirstGui(catalog.At(refreshed), chain).Some?
    requires Primary(agent, Reversed(chain)).Some?
    ensures
      var p := FirstGui(catalog.At(refreshed), chain).value;
      var resolved := AuthorizationOf(catalog, refreshed, uid, agent, Complete(chain)).value;
      && resolved.display.value.application.Some?
      && resolved.display.value.application.value.name == catalog.At(refreshed)(p).value.name
      && resolved.originatingHash == ScopeHash(OriginatingProcess(uid, p.instance).Preimage())
  {
  }

  /**
   * A scope is granted exactly when the peer has a complete lineage: acyclic, of one user,
   * fully inspectable and within the depth budget.
   */
  lemma GrantedIffCompleteLineage(
    catalog: Catalog, refreshed: bool, r: Resolver, peer: ProcessInfo, agent: Option<Executable>)
    requires r.BridgesKeepUid()
    ensures AuthorizationOf(catalog, refreshed, peer.uid, agent, ClimbOf(r, peer.uid, peer)).Some?
      <==> exists chain :: CompleteLineage(r, peer.uid, peer, chain)
  {
    var climb := ClimbOf(r, peer.uid, peer);
    NeverForeign(r, peer.uid, [], peer, false, MAX_PROCESS_CHAIN_DEPTH);
    if climb.Complete? {
      ClimbCompletesIff(r, peer.uid, peer, climb.chain);
    }
    forall chain | CompleteLineage(r, peer.uid, peer, chain)
      ensures climb == Complete(chain)
    {
      ClimbCompletesIff(r, peer.uid, peer, chain);
    }
  }

  /** Equal hashes are granted only to equal lineages, identity by identity. */
  lemma EqualHashMeansEqualScope(uid1: u32, chain1: seq<ProcessInfo>, uid2: u32, chain2: seq<ProcessInfo>)
    requires chain1 != [] && chain2 != []
    requires ProcessChain(ScopeOf(uid1, chain1)).Preimage() == ProcessChain(ScopeOf(uid2, chain2)).Preimage()
    ensures uid1 == uid2 && StableChain(chain1) == StableChain(chain2)
    ensures chain1[|chain1| - 1].instance == chain2[|chain2| - 1].instance
  {
    hide Grantee.Preimage, StableChain, Reversed, ProcessInfo.Stable;
    PreimageInjective(ProcessChain(ScopeOf(uid1, chain1)), ProcessChain(ScopeOf(uid2, chain2)));
    EqualStableChains(chain1, chain2);
  }

  lemma {:induction false} StableSnoc(chain: seq<ProcessInfo>, last: ProcessInfo)
    ensures StableChain(chain + [last]) == StableChain(chain) + [last.Stable()]
  {
    hide ProcessInfo.Stable;
    if chain == [] {
      assert chain + [last] == [last];
    } else {
      assert (chain + [last])[1..] == chain[1..] + [last];
      StableSnoc(chain[1..], last);
    }
  }

  lemma {:induction false} EqualStableChains(chain1: seq<ProcessInfo>, chain2: seq<ProcessInfo>)
    requires StableChain(Reversed(chain1)) == StableChain(Reversed(chain2))
    ensures StableChain(chain1) == StableChain(chain2)
  {
    hide ProcessInfo.Stable;
    assert |chain1| == |Reversed(chain1)| == |StableChain(Reversed(chain1))|;
    if chain1 != [] {
      var r1, r2 := Reversed(chain1[1..]), Reversed(chain2[1..]);
      StableSnoc(r1, chain1[0]);
      StableSnoc(r2, chain2[0]);
      var s1, s2 := StableChain(r1), StableChain(r2);
      SplitEqual(s1, s2, [chain1[0].Stable()], [chain2[0].Stable()]);
      EqualStableChains(chain1[1..], chain2[1..]);
    }
  }

  // ----- what is granted, position by position -----

  /** The catalog takes the process itself for a GUI application, not just its surroundings. */
  ghost predicate GuiAt(answers: Answers, chain: seq<ProcessInfo>, k: int) {
    && 0 <= k < |chain|
    && match answers(chain[k])
       case None => false
       case Some(GuiMatch(_, kind)) => kind == ProcessMatch
  }

  /** Position `k` is the first GUI process of the chain; the length of the chain if there is none. */
  ghost predicate FirstGuiAt(answers: Answers, chain: seq<ProcessInfo>, k: int) {
    && 0 <= k <= |chain| && (k < |chain| ==> GuiAt(answers, chain, k))
    && forall j :: 0 <= j < k ==> !GuiAt(answers, chain, j)
  }

  lemma {:induction false} FirstGuiIs(answers: Answers, chain: seq<ProcessInfo>, k: nat)
    requires FirstGuiAt(answers, chain, k)
    ensures FirstGui(answers, chain) == if k < |chain| then Some(chain[k]) else None
  {
    if k > 0 {
      assert !GuiAt(answers, chain, 0);
      forall j | 0 <= j < k - 1
        ensures !GuiAt(answers, chain[1..], j)
      {
        assert !GuiAt(answers, chain, j + 1);
      }
      assert k < |chain| ==> GuiAt(answers, chain[1..], k - 1);
      FirstGuiIs(answers, chain[1..], k - 1);
    } else if chain != [] {
      assert GuiAt(answers, chain, 0);
    }
  }

  /** The process at `k` runs in another session than its parent, both sessions being known. */
  ghost predicate BoundaryAt(chain: seq<ProcessInfo>, k: int) {
    && 0 <= k < |chain| - 1
    && chain[k].sessionId.Some? && chain[k + 1].sessionId.Some?
    && chain[k].sessionId.value != chain[k + 1].sessionId.value
  }

  ghost predicate FirstBoundaryAt(chain: seq<ProcessInfo>, k: int) {
    && 0 <= k <= |chain| && (k < |chain| ==> BoundaryAt(chain, k))
    && forall j :: 0 <= j < k ==> !BoundaryAt(chain, j)
  }

  lemma {:induction false} FirstBoundaryIs(chain: seq<ProcessInfo>, k: nat)
    requires FirstBoundaryAt(chain, k)
    ensures FirstBoundary(chain) == if k < |chain| then Some(chain[k]) else None
  {
    if |chain| >= 2 {
      if k > 0 {
        assert !BoundaryAt(chain, 0);
        forall j | 0 <= j < k - 1
          ensures !BoundaryAt(chain[1..], j)
        {
          assert !BoundaryAt(chain, j + 1);
        }
        assert k < |chain| ==> BoundaryAt(chain[1..], k - 1);
        FirstBoundaryIs(chain[1..], k - 1);
      } else {
        assert BoundaryAt(chain, 0);
      }
    }
  }

  /**
   * The process at `k` is where the lineage originates: the GUI process nearest to the peer,
   * looked up once more after a refresh if there is none, else the nearest session boundary,
   * else the top.
   */
  ghost predicate OriginatesAt(catalog: Catalog, refreshed: bool, chain: seq<ProcessInfo>, k: int) {
    var now := if refreshed then catalog.after else catalog.before;
    var n := |chain|;
    && 0 <= k < n
    && (|| FirstGuiAt(now, chain, k)
        || (&& FirstGuiAt(now, chain, n)
            && if catalog.refreshable && !refreshed && !FirstGuiAt(catalog.after, chain, n) then
                 FirstGuiAt(catalog.after, chain, k)
               else FirstBoundaryAt(chain, k) || (FirstBoundaryAt(chain, n) && k == n - 1)))
  }

  lemma OriginatesIs(catalog: Catalog, refreshed: bool, chain: seq<ProcessInfo>, k: nat)
    requires OriginatesAt(catalog, refreshed, chain, k)
    ensures GuiOrElse(catalog, refreshed, chain, BoundaryOrTop(chain)) == Some(chain[k])
  {
    hide FirstGui, FirstBoundary, GuiAt, BoundaryAt, FirstGuiAt, FirstBoundaryAt;
    var now, n := catalog.At(refreshed), |chain|;
    if FirstGuiAt(now, chain, k) {
      FirstGuiIs(now, chain, k);
    } else {
      FirstGuiIs(now, chain, n);
      if FirstGuiAt(catalog.after, chain, n) {
        FirstGuiIs(catalog.after, chain, n);
      } else if catalog.refreshable && !refreshed {
        FirstGuiIs(catalog.after, chain, k);
      }
      if FirstBoundaryAt(chain, k) {
        FirstBoundaryIs(chain, k);
      } else if FirstBoundaryAt(chain, n) {
        FirstBoundaryIs(chain, n);
      }
    }
  }

  /** Position by position, the scope that is hashed: anchored at the top, identities from there to the peer. */
  lemma ScopeMeans(uid: u32, chain: seq<ProcessInfo>, k: nat)
    requires k < |chain|
    ensures
      var scope, n := ScopeOf(uid, chain), |chain|;
      && scope.uid == uid && scope.anchor == chain[n - 1].instance && |scope.chain| == n
      && scope.chain[n - 1 - k] ==
           if chain[k].executable.Some? then ByExecutable(chain[k].executable.value) else ByInstance(chain[k].instance)
  {
    ReversedAt(chain, k);
    StableAt(Reversed(chain), |chain| - 1 - k);
  }

  lemma {:induction false} StableAt(chain: seq<ProcessInfo>, k: nat)
    requires k < |chain|
    ensures StableChain(chain)[k] ==
      if chain[k].executable.Some? then ByExecutable(chain[k].executable.value) else ByInstance(chain[k].instance)
  {
    if k > 0 {
      StableAt(chain[1..], k - 1);
    }
  }

  /** What a granted scope holds: both hashes, and the peer itself as the ultimate process. */
  lemma GrantedMeans(
    catalog: Catalog, refreshed: bool, r: Resolver, peer: ProcessInfo, agent: Option<Executable>,
    trail: seq<ProcessInfo>, bridge: Option<nat>, k: nat)
    requires EndsAs(r, peer.uid, peer, trail, bridge, Complete(trail)) && OriginatesAt(catalog, refreshed, trail, k)
    ensures
      var granted := AuthorizationOf(catalog, refreshed, peer.uid, agent, ClimbOf(r, peer.uid, peer));
      && granted.Some?
      && granted.value.hash == ScopeHash(ProcessChain(ScopeOf(peer.uid, trail)).Preimage())
      && granted.value.originatingHash == ScopeHash(OriginatingProcess(peer.uid, trail[k].instance).Preimage())
      && granted.value.ultimate.executable == peer.executable
      && granted.value.ultimate.executablePath == peer.executablePath
  {
    EndIsClimb(r, peer.uid, peer, trail, bridge, Complete(trail));
    OriginatesIs(catalog, refreshed, trail, k);
    assert trail != [] && trail[0] == peer;
    hide EndsAs, ClimbOf, OriginatesAt, GuiOrElse, DisplayOf, Grantee.Preimage, ScopeOf;
  }

  /** Some process is where a lineage originates. */
  lemma SomeOrigin(catalog: Catalog, refreshed: bool, chain: seq<ProcessInfo>) returns (k: nat)
    requires chain != []
    ensures OriginatesAt(catalog, refreshed, chain, k)
  {
    hide GuiAt, BoundaryAt;
    var now, n := catalog.At(refreshed), |chain|;
    k := SomeFirstGui(now, chain);
    if k == n {
      k := SomeFirstGui(catalog.after, chain);
      if !(catalog.refreshable && !refreshed && k < n) {
        k := SomeFirstBoundary(chain);
        if k == n {
          k := n - 1;
        }
      }
    }
  }

  lemma {:induction false} SomeFirstGui(answers: Answers, chain: seq<ProcessInfo>) returns (k: nat)
    ensures FirstGuiAt(answers, chain, k)
    ensures k < |chain| ==> !FirstGuiAt(answers, chain, |chain|)
  {
    k := 0;
    while k < |chain| && !GuiAt(answers, chain, k)
      invariant k <= |chain| && forall j :: 0 <= j < k ==> !GuiAt(answers, chain, j)
    {
      k := k + 1;
    }
  }

  lemma {:induction false} SomeFirstBoundary(chain: seq<ProcessInfo>) returns (k: nat)
    ensures FirstBoundaryAt(chain, k)
  {
    k := 0;
    while k < |chain| && !BoundaryAt(chain, k)
      invariant k <= |chain| && forall j :: 0 <= j < k ==> !BoundaryAt(chain, j)
    {
      k := k + 1;
    }
  }

  /**
   * A scope is granted if and only if the resolver's own answers make up a complete trail: no
   * parent missing, nobody else's process, no repetition, and the budget kept.
   */
  lemma GrantedIffTrail(catalog: Catalog, refreshed: bool, r: Resolver, peer: ProcessInfo, agent: Option<Executable>)
    requires r.BridgesKeepUid()
    ensures AuthorizationOf(catalog, refreshed, peer.uid, agent, ClimbOf(r, peer.uid, peer)).Some?
      <==> exists trail, bridge :: EndsAs(r, peer.uid, peer, trail, bridge, Complete(trail))
  {
    var climb := ClimbOf(r, peer.uid, peer);
    NeverForeign(r, peer.uid, [], peer, false, MAX_PROCESS_CHAIN_DEPTH);
    ClimbEndsIff(r, peer.uid, peer, climb);
    if climb.Complete? {
      var trail, bridge :| EndsAs(r, peer.uid, peer, trail, bridge, climb);
      assert climb == Complete(trail);
    }
    forall trail, bridge | EndsAs(r, peer.uid, peer, trail, bridge, Complete(trail))
      ensures climb == Complete(trail) && trail != []
    {
      EndIsClimb(r, peer.uid, peer, trail, bridge, Complete(trail));
    }
    hide EndsAs, ClimbOf, GuiOrElse, DisplayOf, Grantee.Preimage, ScopeOf;
  }

  // ----- what is displayed -----

  ghost predicate PresentableAt(agent: Option<Executable>, chain: seq<ProcessInfo>, k: int) {
    0 <= k < |chain| && chain[k].executable.Some? && chain[k].executablePath.Some? && agent != chain[k].executable
  }

  ghost predicate PathAt(chain: seq<ProcessInfo>, k: int) {
    0 <= k < |chain| && chain[k].executablePath.Some?
  }

  /** The process to display: nearest to the peer, known and not the agent itself, else just with a path. */
  ghost predicate PrimaryAt(agent: Option<Executable>, chain: seq<ProcessInfo>, k: int) {
    || (PresentableAt(agent, chain, k) && forall j :: 0 <= j < k ==> !PresentableAt(agent, chain, j))
    || (&& (forall j :: 0 <= j < |chain| ==> !PresentableAt(agent, chain, j))
        && PathAt(chain, k) && forall j :: 0 <= j < k ==> !PathAt(chain, j))
  }

  lemma {:induction false} LastWithReversed(good: ProcessInfo -> bool, chain: seq<ProcessInfo>, k: nat)
    requires k <= |chain| && (k < |chain| ==> good(chain[k])) && forall j :: 0 <= j < k ==> !good(chain[j])
    ensures LastWith(good, Reversed(chain)) == if k < |chain| then Some(chain[k]) else None
  {
    if chain != [] {
      ReversedEnds(chain);
      if k > 0 {
        LastWithReversed(good, chain[1..], k - 1);
      }
    }
  }

  lemma PrimaryIs(agent: Option<Executable>, chain: seq<ProcessInfo>, k: nat)
    requires PrimaryAt(agent, chain, k)
    ensures Primary(agent, Reversed(chain)) == Some(chain[k])
  {
    var best, any := (q: ProcessInfo) => Presentable(agent, q), (q: ProcessInfo) => q.executablePath.Some?;
    assert forall j :: 0 <= j < |chain| ==> (best(chain[j]) <==> PresentableAt(agent, chain, j));
    assert forall j :: 0 <= j < |chain| ==> (any(chain[j]) <==> PathAt(chain, j));
    hide PresentableAt, PathAt, Presentable;
    if PresentableAt(agent, chain, k) {
      LastWithReversed(best, chain, k);
    } else {
      LastWithReversed(best, chain, |chain|);
      LastWithReversed(any, chain, k);
    }
  }

  /**
   * The application named beside the displayed process: that of the nearest GUI process, marked
   * if it is the displayed process or runs the same executable; else that of the nearest process
   * with any match, never marked.
   */
  ghost predicate ApplicationIs(
    answers: Answers, chain: seq<ProcessInfo>, primary: ProcessInfo, application: Option<Application>)
  {
    exists g, m ::
      && FirstGuiAt(answers, chain, g) && FirstMatchAt(answers, chain, m)
      && application == ApplicationAt(answers, chain, primary, g, m)
  }

  ghost predicate FirstMatchAt(answers: Answers, chain: seq<ProcessInfo>, m: int) {
    && 0 <= m <= |chain| && (forall j :: 0 <= j < m ==> answers(chain[j]) == None)
    && (m < |chain| ==> answers(chain[m]) != None)
  }

  ghost function ApplicationAt(
    answers: Answers, chain: seq<ProcessInfo>, primary: ProcessInfo, g: int, m: int): Option<Application>
    requires FirstGuiAt(answers, chain, g) && FirstMatchAt(answers, chain, m)
  {
    if g < |chain| then
      assert GuiAt(answers, chain, g);
      Some(Application(
        answers(chain[g]).value.name,
        chain[g].instance == primary.instance
          || (chain[g].executable != None && chain[g].executable == primary.executable)))
    else if m < |chain| then Some(Application(answers(chain[m]).value.name, false))
    else None
  }

  lemma {:induction false} SomeFirstMatch(answers: Answers, chain: seq<ProcessInfo>) returns (m: nat)
    ensures FirstMatchAt(answers, chain, m)
    ensures FirstMatch(answers, chain) == if m < |chain| then Some(chain[m]) else None
  {
    if chain == [] || answers(chain[0]) != None {
      m := 0;
    } else {
      m := SomeFirstMatch(answers, chain[1..]);
      m := m + 1;
    }
  }

  lemma ApplicationMeans(answers: Answers, chain: seq<ProcessInfo>, primary: ProcessInfo)
    ensures ApplicationIs(answers, chain, primary, ApplicationOf(answers, chain, primary))
  {
    var g := SomeFirstGui(answers, chain);
    FirstGuiIs(answers, chain, g);
    var m := SomeFirstMatch(answers, chain);
    hide FirstGui, FirstMatch, FirstGuiAt, FirstMatchAt;
    assert ApplicationOf(answers, chain, primary) == ApplicationAt(answers, chain, primary, g, m);
  }

  /** What a second look finds counts only if it is taken and the first found nothing. */
  ghost predicate ShownAs(
    now: Answers, later: Answers, again: bool, chain: seq<ProcessInfo>, primary: ProcessInfo, display: Option<Display>)
  {
    exists first, second ::
      && ApplicationIs(now, chain, primary, first) && ApplicationIs(later, chain, primary, second)
      && display == Some(Display(primary, if first != None then first else if again then second else None))
  }

  /** The whole display of a lineage in which some process can be displayed. */
  lemma DisplayMeans(catalog: Catalog, refreshed: bool, agent: Option<Executable>, chain: seq<ProcessInfo>, k: nat)
    requires PrimaryAt(agent, chain, k)
    ensures ShownAs(
      if refreshed then catalog.after else catalog.before, catalog.after, catalog.refreshable && !refreshed,
      chain, chain[k], DisplayOf(catalog, refreshed, agent, chain))
  {
    PrimaryIs(agent, chain, k);
    ApplicationMeans(catalog.At(refreshed), chain, chain[k]);
    ApplicationMeans(catalog.after, chain, chain[k]);
    hide ApplicationIs, ApplicationOf, Primary, PrimaryAt;
  }

  lemma NothingDisplayed(catalog: Catalog, refreshed: bool, agent: Option<Executable>, chain: seq<ProcessInfo>)
    requires forall k :: 0 <= k < |chain| ==> chain[k].executablePath == None
    ensures DisplayOf(catalog, refreshed, agent, chain) == None
  {
    var best, any := (q: ProcessInfo) => Presentable(agent, q), (q: ProcessInfo) => q.executablePath.Some?;
    assert forall j :: 0 <= j < |chain| ==> !best(chain[j]) && !any(chain[j]);
    LastWithReversed(best, chain, |chain|);
    LastWithReversed(any, chain, |chain|);
  }

  // ----- what an abandoned climb still yields -----

  /** Of a climb that did not complete, the GUI process of what was accepted, else the boundary of what was reached. */
  lemma AbandonedMeans(
    catalog: Catalog, refreshed: bool, chain: seq<ProcessInfo>, reached: seq<ProcessInfo>, cut: bool,
    g: nat, again: nat, b: nat)
    requires FirstGuiAt(catalog.At(refreshed), chain, g) && FirstGuiAt(catalog.after, chain, again)
    requires FirstBoundaryAt(reached, b)
    ensures
      OriginatingOf(catalog, refreshed, if cut then Cut(chain, reached) else Foreign(chain, reached)) ==
        if g < |chain| then Some(chain[g])
        else if catalog.refreshable && !refreshed && again < |chain| then Some(chain[again])
        else if b < |reached| then Some(reached[b])
        else None
  {
    FirstGuiIs(catalog.At(refreshed), chain, g);
    FirstGuiIs(catalog.after, chain, again);
    FirstBoundaryIs(reached, b);
    hide FirstGui, FirstBoundary, FirstGuiAt, FirstBoundaryAt;
  }
}
