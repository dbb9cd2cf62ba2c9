/**
 * What the two ancestor walks of the agent compute. A walk climbs from the peer process to
 * its topmost ancestor of the same user; `Climb` describes every way it can end, and the
 * lemmas say which lineages are accepted. Chains are written peer first unless noted.
 */
module Lineage {
  import opened Wrappers
  import opened Bytes
  import opened ProcessModel

  const MAX_PROCESS_CHAIN_DEPTH: nat := 256

  datatype Step =
    | Top                            // nothing above belongs to the peer
    | Vanished                       // the parent could not be inspected
    | Parent(parent: ProcessInfo)
    | Bridged(parent: ProcessInfo)   // across a verified macOS login boundary

  /** One move up from `p`; a login boundary may be bridged only once. */
  function NextStep(r: Resolver, uid: u32, crossed: bool, p: ProcessInfo): Step {
    if p.parentPid <= 0 then Top
    else if p.parentPid !in r.uids then Vanished
    else if r.uids[p.parentPid] != uid then
      if !crossed && (p, p.parentPid, uid) in r.bridges
      then Bridged(r.bridges[(p, p.parentPid, uid)])
      else Top
    else if p.parentPid !in r.infos then Vanished
    else if r.infos[p.parentPid].uid != uid then Top
    else Parent(r.infos[p.parentPid])
  }

  predicate HasPid(chain: seq<ProcessInfo>, pid: i32) {
    exists i :: 0 <= i < |chain| && chain[i].Pid() == pid
  }

  /**
   * How a climb ends. `chain` holds the accepted processes, `reached` also the one the climb
   * was looking at when it stopped, if that one was not accepted.
   */
  datatype Climb =
    | Complete(chain: seq<ProcessInfo>)
    | Foreign(chain: seq<ProcessInfo>, reached: seq<ProcessInfo>)   // bridged into another user
    | Cut(chain: seq<ProcessInfo>, reached: seq<ProcessInfo>)       // cycle, budget or vanished parent

  ghost function ClimbFrom(
    r: Resolver, uid: u32, chain: seq<ProcessInfo>, current: ProcessInfo, crossed: bool, budget: nat): Climb
    decreases budget
  {
    if budget == 0 then Cut(chain, chain + [current])
    else if current.uid != uid then Foreign(chain, chain + [current])
    else if HasPid(chain, current.Pid()) then Cut(chain, chain + [current])
    else
      var longer := chain + [current];
      if current.parentPid <= 0 then Complete(longer)
      else if budget == 1 then Cut(longer, longer)
      else
        match NextStep(r, uid, crossed, current)
        case Top => Complete(longer)
        case Vanished => Cut(longer, longer)
        case Parent(p) => ClimbFrom(r, uid, longer, p, crossed, budget - 1)
        case Bridged(p) => ClimbFrom(r, uid, longer, p, true, budget - 2)
  }

  ghost function ClimbOf(r: Resolver, uid: u32, peer: ProcessInfo): Climb {
    ClimbFrom(r, uid, [], peer, false, MAX_PROCESS_CHAIN_DEPTH)
  }

  // ----- which lineages are accepted -----

  /** `chain` follows the resolver step by step from its first element up to a top. */
  ghost predicate Ascends(r: Resolver, uid: u32, crossed: bool, chain: seq<ProcessInfo>)
    decreases |chain|
  {
    && chain != []
    && chain[0].uid == uid
    && match NextStep(r, uid, crossed, chain[0])
       case Top => |chain| == 1
       case Vanished => false
       case Parent(p) => |chain| > 1 && chain[1] == p && Ascends(r, uid, crossed, chain[1..])
       case Bridged(p) => |chain| > 1 && chain[1] == p && Ascends(r, uid, true, chain[1..])
  }

  /** Budget spent along `chain`: one per process, one more per bridge. */
  ghost function Cost(r: Resolver, uid: u32, crossed: bool, chain: seq<ProcessInfo>): nat
    decreases |chain|
  {
    if chain == [] then 0
    else if NextStep(r, uid, crossed, chain[0]).Bridged? then 2 + Cost(r, uid, true, chain[1..])
    else 1 + Cost(r, uid, crossed, chain[1..])
  }

  /** Looking above a process that does have a parent needs one unit of budget to spare. */
  ghost function LookFee(top: ProcessInfo): nat {
    if top.parentPid <= 0 then 0 else 1
  }

  ghost predicate DistinctPids(chain: seq<ProcessInfo>) {
    forall i, j :: 0 <= i < j < |chain| ==> chain[i].Pid() != chain[j].Pid()
  }

  ghost predicate WholeClimb(
    r: Resolver, uid: u32, before: seq<ProcessInfo>, current: ProcessInfo, crossed: bool, budget: nat,
    rest: seq<ProcessInfo>)
  {
    && Ascends(r, uid, crossed, rest)
    && rest[0] == current
    && DistinctPids(before + rest)
    && Cost(r, uid, crossed, rest) + LookFee(rest[|rest| - 1]) <= budget
  }

  lemma {:induction false} ClimbSound(
    r: Resolver, uid: u32, before: seq<ProcessInfo>, current: ProcessInfo, crossed: bool, budget: nat)
    requires DistinctPids(before)
    requires ClimbFrom(r, uid, before, current, crossed, budget).Complete?
    ensures var chain := ClimbFrom(r, uid, before, current, crossed, budget).chain;
            before <= chain && WholeClimb(r, uid, before, current, crossed, budget, chain[|before|..])
    decreases budget
  {
    hide WholeClimb;
    var chain := ClimbFrom(r, uid, before, current, crossed, budget).chain;
    var longer := before + [current];
    var step := NextStep(r, uid, crossed, current);
    DistinctSnoc(before, current);
    if current.parentPid > 0 && (step.Parent? || step.Bridged?) {
      var crossed' := crossed || step.Bridged?;
      var budget' := if step.Bridged? then budget - 2 else budget - 1;
      ClimbSound(r, uid, longer, step.parent, crossed', budget');
      var rest := chain[|longer|..];
      assert chain[|before|..] == [current] + rest;
      WholeClimbBelow(r, uid, before, current, crossed, budget, rest);
    } else {
      assert chain[|before|..] == [current];
      WholeClimbTop(r, uid, before, current, crossed, budget);
    }
  }

  lemma DistinctSnoc(chain: seq<ProcessInfo>, last: ProcessInfo)
    requires DistinctPids(chain) && !HasPid(chain, last.Pid())
    ensures DistinctPids(chain + [last])
  {
  }

  lemma WholeClimbTop(
    r: Resolver, uid: u32, before: seq<ProcessInfo>, current: ProcessInfo, crossed: bool, budget: nat)
    requires NextStep(r, uid, crossed, current) == Top && current.uid == uid
    requires DistinctPids(before + [current]) && 1 + LookFee(current) <= budget
    ensures WholeClimb(r, uid, before, current, crossed, budget, [current])
  {
    assert [current][1..] == [];
  }

  /** Putting a process below a whole climb from its parent. */
  lemma WholeClimbBelow(
    r: Resolver, uid: u32, before: seq<ProcessInfo>, current: ProcessInfo, crossed: bool, budget: nat,
    rest: seq<ProcessInfo>)
    requires current.uid == uid
    requires
      var step := NextStep(r, uid, crossed, current);
      || (step.Parent? && budget > 1 &&
          WholeClimb(r, uid, before + [current], step.parent, crossed, budget - 1, rest))
      || (step.Bridged? && budget > 1 &&
          WholeClimb(r, uid, before + [current], step.parent, true, budget - 2, rest))
    ensures WholeClimb(r, uid, before, current, crossed, budget, [current] + rest)
  {
    assert before + ([current] + rest) == before + [current] + rest;
    assert ([current] + rest)[1..] == rest;
  }

  lemma {:induction false} ClimbExact(
    r: Resolver, uid: u32, before: seq<ProcessInfo>, current: ProcessInfo, crossed: bool, budget: nat,
    rest: seq<ProcessInfo>)
    requires WholeClimb(r, uid, before, current, crossed, budget, rest)
    ensures ClimbFrom(r, uid, before, current, crossed, budget) == Complete(before + rest)
    decreases budget
  {
    var longer := before + [current];
    var step := NextStep(r, uid, crossed, current);
    assert (before + rest)[|before|] == current;
    assert forall i :: 0 <= i < |before| ==> (before + rest)[i] == before[i];
    assert !HasPid(before, current.Pid());
    if step.Parent? || step.Bridged? {
      var crossed' := crossed || step.Bridged?;
      var budget' := if step.Bridged? then budget - 2 else budget - 1;
      assert before + rest == longer + rest[1..];
      assert rest[1..][|rest| - 2] == rest[|rest| - 1];
      CostPositive(r, uid, crossed', rest[1..]);
      ClimbExact(r, uid, longer, step.parent, crossed', budget', rest[1..]);
    } else {
      assert before + rest == longer;
    }
  }

  lemma CostPositive(r: Resolver, uid: u32, crossed: bool, chain: seq<ProcessInfo>)
    ensures |chain| <= Cost(r, uid, crossed, chain)
    decreases |chain|
  {
    if chain != [] {
      CostPositive(r, uid, crossed || NextStep(r, uid, crossed, chain[0]).Bridged?, chain[1..]);
    }
  }

  /** The lineage of `peer` in full, within the depth budget. */
  ghost predicate CompleteLineage(r: Resolver, uid: u32, peer: ProcessInfo, chain: seq<ProcessInfo>) {
    WholeClimb(r, uid, [], peer, false, MAX_PROCESS_CHAIN_DEPTH, chain)
  }

  /**
   * A climb completes exactly when the peer has a lineage that is acyclic, of one user and
   * within budget, and it then yields that lineage.
   */
  lemma ClimbCompletesIff(r: Resolver, uid: u32, peer: ProcessInfo, chain: seq<ProcessInfo>)
    ensures ClimbOf(r, uid, peer) == Complete(chain) <==> CompleteLineage(r, uid, peer, chain)
  {
    if ClimbOf(r, uid, peer) == Complete(chain) {
      ClimbSound(r, uid, [], peer, false, MAX_PROCESS_CHAIN_DEPTH);
      assert chain[0..] == chain;
    }
    if CompleteLineage(r, uid, peer, chain) {
      ClimbExact(r, uid, [], peer, false, MAX_PROCESS_CHAIN_DEPTH, chain);
      assert [] + chain == chain;
    }
  }

  /** With a platform that vouches for bridged parents, no climb strays to another user. */
  lemma {:induction false} NeverForeign(
    r: Resolver, uid: u32, chain: seq<ProcessInfo>, current: ProcessInfo, crossed: bool, budget: nat)
    requires r.BridgesKeepUid() && current.uid == uid
    ensures !ClimbFrom(r, uid, chain, current, crossed, budget).Foreign?
    decreases budget
  {
    if budget > 1 && !HasPid(chain, current.Pid()) && current.parentPid > 0 {
      var longer := chain + [current];
      match NextStep(r, uid, crossed, current) {
        case Parent(p) => NeverForeign(r, uid, longer, p, crossed, budget - 1);
        case Bridged(p) => NeverForeign(r, uid, longer, p, true, budget - 2);
        case _ =>
      }
    }
  }

  // ----- the shape of an accepted lineage -----

  ghost predicate LinkedDirectly(child: ProcessInfo, parent: ProcessInfo) {
    child.parentPid == parent.Pid()
  }

  ghost predicate LinkedByBridge(r: Resolver, uid: u32, child: ProcessInfo, parent: ProcessInfo) {
    && (child, child.parentPid, uid) in r.bridges
    && r.bridges[(child, child.parentPid, uid)] == parent
    && child.parentPid in r.uids && r.uids[child.parentPid] != uid
  }

  /** Neighbours are parent and child, except across the login bridge at `bridge`, if any. */
  ghost predicate LinkedExcept(r: Resolver, uid: u32, chain: seq<ProcessInfo>, bridge: Option<nat>) {
    && (bridge.Some? ==>
          bridge.value + 1 < |chain| &&
          LinkedByBridge(r, uid, chain[bridge.value], chain[bridge.value + 1]))
    && forall i :: 0 <= i < |chain| - 1 && bridge != Some(i) ==> LinkedDirectly(chain[i], chain[i + 1])
  }

  lemma {:induction false} AscentLinked(r: Resolver, uid: u32, crossed: bool, chain: seq<ProcessInfo>)
    returns (bridge: Option<nat>)
    requires r.AnswersForPid() && Ascends(r, uid, crossed, chain)
    ensures forall i :: 0 <= i < |chain| ==> chain[i].uid == uid
    ensures LinkedExcept(r, uid, chain, bridge)
    ensures crossed ==> bridge == None
    ensures Cost(r, uid, crossed, chain) == |chain| + (if bridge.Some? then 1 else 0)
    decreases |chain|
  {
    match NextStep(r, uid, crossed, chain[0]) {
      case Top =>
        assert chain[1..] == [];
        bridge := None;
      case Parent(p) =>
        var above := AscentLinked(r, uid, crossed, chain[1..]);
        bridge := if above.Some? then Some(above.value + 1) else None;
        AscentShift(r, uid, chain, above);
      case Bridged(p) =>
        var above := AscentLinked(r, uid, true, chain[1..]);
        bridge := Some(0);
        forall i | 0 < i < |chain| - 1
          ensures LinkedDirectly(chain[i], chain[i + 1])
        {
          assert LinkedDirectly(chain[1..][i - 1], chain[1..][i - 1 + 1]);
        }
    }
    assert forall i :: 0 < i < |chain| ==> chain[i] == chain[1..][i - 1];
  }

  lemma AscentShift(r: Resolver, uid: u32, chain: seq<ProcessInfo>, above: Option<nat>)
    requires |chain| > 1 && LinkedDirectly(chain[0], chain[1])
    requires LinkedExcept(r, uid, chain[1..], above)
    ensures LinkedExcept(r, uid, chain, if above.Some? then Some(above.value + 1) else None)
  {
    var bridge: Option<nat> := if above.Some? then Some(above.value + 1) else None;
    forall i | 0 <= i < |chain| - 1 && bridge != Some(i)
      ensures LinkedDirectly(chain[i], chain[i + 1])
    {
      if i > 0 {
        assert LinkedDirectly(chain[1..][i - 1], chain[1..][i - 1 + 1]);
      }
    }
  }

  /**
   * Every lineage a walk accepts consists of distinct pids of the peer's user, linked parent
   * to child with at most one verified login bridge, and with that bridge counted it fits in
   * the depth limit.
   */
  lemma AcceptedLineageShape(r: Resolver, uid: u32, peer: ProcessInfo, chain: seq<ProcessInfo>)
    returns (bridge: Option<nat>)
    requires r.AnswersForPid()
    requires ClimbOf(r, uid, peer) == Complete(chain)
    ensures chain != [] && chain[0] == peer
    ensures DistinctPids(chain)
    ensures forall i :: 0 <= i < |chain| ==> chain[i].uid == uid
    ensures LinkedExcept(r, uid, chain, bridge)
    ensures |chain| + (if bridge.Some? then 1 else 0) <= MAX_PROCESS_CHAIN_DEPTH
  {
    ClimbCompletesIff(r, uid, peer, chain);
    assert [] + chain == chain;
    bridge := AscentLinked(r, uid, false, chain);
  }

  /** A climb only ever extends what it has accepted. */
  lemma {:induction false} ClimbExtends(
    r: Resolver, uid: u32, chain: seq<ProcessInfo>, current: ProcessInfo, crossed: bool, budget: nat)
    ensures chain <= ClimbFrom(r, uid, chain, current, crossed, budget).chain
    ensures budget > 0 && current.uid == uid && !HasPid(chain, current.Pid()) ==>
      chain + [current] <= ClimbFrom(r, uid, chain, current, crossed, budget).chain
    decreases budget
  {
    if budget > 1 && current.uid == uid && !HasPid(chain, current.Pid()) && current.parentPid > 0 {
      var longer := chain + [current];
      match NextStep(r, uid, crossed, current) {
        case Parent(p) => ClimbExtends(r, uid, longer, p, crossed, budget - 1);
        case Bridged(p) => ClimbExtends(r, uid, longer, p, true, budget - 2);
        case _ =>
      }
    }
  }

  // ----- how a climb ends, in the resolver's own answers -----

  /** Budget left when the climb looks at position `k`: one is spent on each process, one more on the bridge. */
  function BudgetAt(bridge: Option<nat>, k: int): int {
    256 - k - (if bridge.Some? && bridge.value < k then 1 else 0)
  }

  function Crossed(bridge: Option<nat>, k: int): bool {
    bridge.Some? && bridge.value < k
  }

  /** What the resolver has to answer for the climb to go on from `child` to `parent`. */
  ghost predicate LeadsTo(r: Resolver, uid: u32, child: ProcessInfo, parent: ProcessInfo, bridged: bool) {
    && child.parentPid > 0 && child.parentPid in r.uids
    && if bridged then
         && r.uids[child.parentPid] != uid
         && (child, child.parentPid, uid) in r.bridges && r.bridges[(child, child.parentPid, uid)] == parent
       else
         && r.uids[child.parentPid] == uid
         && child.parentPid in r.infos && r.infos[child.parentPid] == parent && parent.uid == uid
  }

  /** Nothing above `p` belongs to the user: it has no parent, or one that is inspected and foreign. */
  ghost predicate IsTop(r: Resolver, uid: u32, p: ProcessInfo, crossed: bool) {
    || p.parentPid <= 0
    || (&& p.parentPid in r.uids
        && if r.uids[p.parentPid] != uid then crossed || (p, p.parentPid, uid) !in r.bridges
           else p.parentPid in r.infos && r.infos[p.parentPid].uid != uid)
  }

  /** `p` has a parent that cannot be inspected. */
  ghost predicate ParentMissing(r: Resolver, uid: u32, p: ProcessInfo) {
    && p.parentPid > 0
    && (p.parentPid !in r.uids || (r.uids[p.parentPid] == uid && p.parentPid !in r.infos))
  }

  /** The climb went along `trail`, with its bridge, if any, from position `bridge`. */
  ghost predicate Follows(r: Resolver, uid: u32, peer: ProcessInfo, trail: seq<ProcessInfo>, bridge: Option<nat>) {
    && trail != [] && trail[0] == peer
    && (bridge.Some? ==> bridge.value < |trail| - 1)
    && (forall k :: 0 <= k < |trail| - 1 ==>
          LeadsTo(r, uid, trail[k], trail[k + 1], bridge == Some(k)) && BudgetAt(bridge, k) > 1)
    && (forall k :: 0 <= k < |trail| - 1 ==> trail[k].uid == uid)
    && (forall j, k :: 0 <= j < k < |trail| - 1 ==> trail[j].instance.pid != trail[k].instance.pid)
  }

  ghost predicate Repeats(trail: seq<ProcessInfo>) {
    exists k :: 0 <= k < |trail| - 1 && trail[k].instance.pid == trail[|trail| - 1].instance.pid
  }

  /** The last process of the trail is accepted: of the user, new, and within the budget. */
  ghost predicate LastAccepted(uid: u32, trail: seq<ProcessInfo>, bridge: Option<nat>) {
    && trail != [] && BudgetAt(bridge, |trail| - 1) > 0
    && trail[|trail| - 1].uid == uid && !Repeats(trail)
  }

  /** How the climb ends, said of what the resolver answers along the trail. */
  ghost predicate EndsAs(
    r: Resolver, uid: u32, peer: ProcessInfo, trail: seq<ProcessInfo>, bridge: Option<nat>, climb: Climb)
  {
    && Follows(r, uid, peer, trail, bridge)
    && var top, left := trail[|trail| - 1], BudgetAt(bridge, |trail| - 1);
       match climb
       case Complete(chain) =>
         && chain == trail && LastAccepted(uid, trail, bridge)
         && IsTop(r, uid, top, Crossed(bridge, |trail| - 1)) && (top.parentPid > 0 ==> left > 1)
       case Foreign(chain, reached) =>
         reached == trail && chain == trail[..|trail| - 1] && left > 0 && top.uid != uid
       case Cut(chain, reached) =>
         && reached == trail
         && if LastAccepted(uid, trail, bridge) then
              chain == trail && top.parentPid > 0 && (left == 1 || ParentMissing(r, uid, top))
            else chain == trail[..|trail| - 1] && (left == 0 || (top.uid == uid && Repeats(trail)))
  }

  /** Going along a trail, the climb comes to its last process with all others accepted. */
  lemma {:induction false} ClimbAlong(
    r: Resolver, uid: u32, peer: ProcessInfo, trail: seq<ProcessInfo>, bridge: Option<nat>, n: nat)
    requires Follows(r, uid, peer, trail, bridge) && n < |trail|
    ensures BudgetAt(bridge, n) >= 0
    ensures ClimbOf(r, uid, peer) ==
      ClimbFrom(r, uid, trail[..n], trail[n], Crossed(bridge, n), BudgetAt(bridge, n))
  {
    if n == 0 {
      assert trail[..0] == [];
    } else {
      ClimbAlong(r, uid, peer, trail, bridge, n - 1);
      var chain, current := trail[..n - 1], trail[n - 1];
      assert LeadsTo(r, uid, current, trail[n - 1 + 1], bridge == Some(n - 1));
      assert chain + [current] == trail[..n];
      assert !HasPid(chain, current.Pid());
      hide HasPid, LeadsTo, ClimbFrom;
      OneStepUp(r, uid, chain, current, trail[n], Crossed(bridge, n - 1), bridge == Some(n - 1), BudgetAt(bridge, n - 1));
    }
  }

  lemma OneStepUp(
    r: Resolver, uid: u32, chain: seq<ProcessInfo>, current: ProcessInfo, next: ProcessInfo, crossed: bool,
    bridged: bool, budget: nat)
    requires budget > 1 && current.uid == uid && !HasPid(chain, current.Pid())
    requires LeadsTo(r, uid, current, next, bridged) && !(crossed && bridged)
    ensures ClimbFrom(r, uid, chain, current, crossed, budget) ==
      ClimbFrom(r, uid, chain + [current], next, crossed || bridged, budget - if bridged then 2 else 1)
  {
    hide HasPid;
  }

  /** What one move up amounts to in the resolver's answers. */
  lemma StepMeans(r: Resolver, uid: u32, crossed: bool, p: ProcessInfo)
    ensures var step := NextStep(r, uid, crossed, p);
      && (step.Top? <==> IsTop(r, uid, p, crossed))
      && (step.Vanished? <==> ParentMissing(r, uid, p))
      && (step.Parent? ==> LeadsTo(r, uid, p, step.parent, false))
      && (step.Bridged? ==> !crossed && LeadsTo(r, uid, p, step.parent, true))
  {
  }

  /** The climb's next move from the last process of a trail. */
  lemma ClimbUnfold(r: Resolver, uid: u32, chain: seq<ProcessInfo>, current: ProcessInfo, crossed: bool, budget: nat)
    ensures
      var climb := ClimbFrom(r, uid, chain, current, crossed, budget);
      var longer := chain + [current];
      if budget == 0 then climb == Cut(chain, longer)
      else if current.uid != uid then climb == Foreign(chain, longer)
      else if HasPid(chain, current.Pid()) then climb == Cut(chain, longer)
      else if current.parentPid > 0 && (budget == 1 || ParentMissing(r, uid, current)) then climb == Cut(longer, longer)
      else if IsTop(r, uid, current, crossed) then climb == Complete(longer)
      else NextStep(r, uid, crossed, current).Parent? || NextStep(r, uid, crossed, current).Bridged?
  {
    StepMeans(r, uid, crossed, current);
    hide HasPid, IsTop, ParentMissing;
    assert current.parentPid <= 0 ==> IsTop(r, uid, current, crossed) by {
      TopWithoutParent(r, uid, current, crossed);
    }
  }

  lemma TopWithoutParent(r: Resolver, uid: u32, p: ProcessInfo, crossed: bool)
    ensures p.parentPid <= 0 ==> IsTop(r, uid, p, crossed) && !ParentMissing(r, uid, p)
    ensures IsTop(r, uid, p, crossed) ==> !ParentMissing(r, uid, p)
  {
  }

  lemma LastSplit(trail: seq<ProcessInfo>)
    requires trail != []
    ensures var n := |trail| - 1;
      trail[..n] + [trail[n]] == trail && (HasPid(trail[..n], trail[n].Pid()) <==> Repeats(trail))
  {
  }

  /** The climb of a trail's peer ends as the trail does. */
  lemma EndIsClimb(
    r: Resolver, uid: u32, peer: ProcessInfo, trail: seq<ProcessInfo>, bridge: Option<nat>, climb: Climb)
    requires EndsAs(r, uid, peer, trail, bridge, climb)
    ensures ClimbOf(r, uid, peer) == climb
  {
    var n := |trail| - 1;
    ClimbAlong(r, uid, peer, trail, bridge, n);
    LastSplit(trail);
    ClimbUnfold(r, uid, trail[..n], trail[n], Crossed(bridge, n), BudgetAt(bridge, n));
    TopWithoutParent(r, uid, trail[n], Crossed(bridge, n));
    hide HasPid, Repeats, Follows, ClimbOf, ClimbFrom, NextStep, IsTop, ParentMissing, BudgetAt, Crossed;
  }

  /** A trail that does not go on is where the climb ends. */
  lemma EndsHere(r: Resolver, uid: u32, peer: ProcessInfo, trail: seq<ProcessInfo>, bridge: Option<nat>)
    requires Follows(r, uid, peer, trail, bridge)
    requires
      var n := |trail| - 1;
      var step := NextStep(r, uid, Crossed(bridge, n), trail[n]);
      !(LastAccepted(uid, trail, bridge) && trail[n].parentPid > 0 && BudgetAt(bridge, n) > 1
        && (step.Parent? || step.Bridged?))
    ensures EndsAs(r, uid, peer, trail, bridge, ClimbOf(r, uid, peer))
  {
    var n := |trail| - 1;
    ClimbAlong(r, uid, peer, trail, bridge, n);
    LastSplit(trail);
    ClimbUnfold(r, uid, trail[..n], trail[n], Crossed(bridge, n), BudgetAt(bridge, n));
    StepMeans(r, uid, Crossed(bridge, n), trail[n]);
    TopWithoutParent(r, uid, trail[n], Crossed(bridge, n));
    hide HasPid, Repeats, Follows, ClimbOf, ClimbFrom, NextStep, IsTop, ParentMissing, BudgetAt, Crossed;
  }

  /** Every climb goes along some trail and ends as it does. */
  lemma {:induction false} TrailOf(
    r: Resolver, uid: u32, peer: ProcessInfo, trail: seq<ProcessInfo>, bridge: Option<nat>)
    returns (whole: seq<ProcessInfo>, where: Option<nat>)
    requires Follows(r, uid, peer, trail, bridge)
    ensures EndsAs(r, uid, peer, whole, where, ClimbOf(r, uid, peer))
    decreases BudgetAt(bridge, |trail| - 1)
  {
    hide HasPid, Repeats, Follows, ClimbOf, ClimbFrom, NextStep, IsTop, ParentMissing, EndsAs, LeadsTo;
    NotEmpty(r, uid, peer, trail, bridge);
    var n := |trail| - 1;
    var step := NextStep(r, uid, Crossed(bridge, n), trail[n]);
    if LastAccepted(uid, trail, bridge) && trail[n].parentPid > 0 && BudgetAt(bridge, n) > 1
      && (step.Parent? || step.Bridged?)
    {
      StepMeans(r, uid, Crossed(bridge, n), trail[n]);
      FollowsOn(r, uid, peer, trail, bridge, step.parent, step.Bridged?);
      whole, where := TrailOf(r, uid, peer, trail + [step.parent], if step.Bridged? then Some(n) else bridge);
    } else {
      EndsHere(r, uid, peer, trail, bridge);
      whole, where := trail, bridge;
    }
  }

  lemma NotEmpty(r: Resolver, uid: u32, peer: ProcessInfo, trail: seq<ProcessInfo>, bridge: Option<nat>)
    requires Follows(r, uid, peer, trail, bridge)
    ensures trail != [] && (bridge.Some? ==> bridge.value < |trail| - 1)
  {
  }

  lemma FollowsOn(
    r: Resolver, uid: u32, peer: ProcessInfo, trail: seq<ProcessInfo>, bridge: Option<nat>, parent: ProcessInfo,
    bridged: bool)
    requires Follows(r, uid, peer, trail, bridge) && LastAccepted(uid, trail, bridge)
    requires BudgetAt(bridge, |trail| - 1) > 1
    requires LeadsTo(r, uid, trail[|trail| - 1], parent, bridged) && (bridged ==> bridge.None?)
    ensures Follows(r, uid, peer, trail + [parent], if bridged then Some(|trail| - 1) else bridge)
  {
    hide LeadsTo;
    var longer := trail + [parent];
    assert forall k :: 0 <= k < |trail| ==> longer[k] == trail[k];
    assert longer[|trail|] == parent;
  }

  /**
   * Exactly when and how a climb ends, stated through nothing but the resolver's answers: it
   * completes with a chain if and only if every process in it is of the user, new and within
   * the budget, every one but the last leads to the next, and the last is a top.
   */
  lemma ClimbEndsIff(r: Resolver, uid: u32, peer: ProcessInfo, climb: Climb)
    ensures ClimbOf(r, uid, peer) == climb <==> exists trail, bridge :: EndsAs(r, uid, peer, trail, bridge, climb)
  {
    if ClimbOf(r, uid, peer) == climb {
      assert Follows(r, uid, peer, [peer], None);
      var trail, bridge := TrailOf(r, uid, peer, [peer], None);
    }
    forall trail, bridge | EndsAs(r, uid, peer, trail, bridge, climb)
      ensures ClimbOf(r, uid, peer) == climb
    {
      EndIsClimb(r, uid, peer, trail, bridge, climb);
    }
  }

  /** A climb that reaches a process whose parent cannot be inspected is cut there. */
  lemma MissingParentCuts(r: Resolver, uid: u32, peer: ProcessInfo, trail: seq<ProcessInfo>, bridge: Option<nat>)
    requires Follows(r, uid, peer, trail, bridge) && LastAccepted(uid, trail, bridge)
    requires ParentMissing(r, uid, trail[|trail| - 1])
    ensures ClimbOf(r, uid, peer) == Cut(trail, trail)
  {
    hide Follows, LastAccepted;
    EndIsClimb(r, uid, peer, trail, bridge, Cut(trail, trail));
  }
}
