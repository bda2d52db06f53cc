/** Every run of admissions, releases and approval decisions. */
module PolicyRuns {
  import opened Basics
  import opened PolicyRules
  import opened Budgets
  import Delegation
  import Sums

  datatype Principal = Principal(apiKeyId: string, master: bool, scopes: seq<string>)

  predicate CanApprove(p: Principal)
  {
    p.master || "approvals:write" in p.scopes
  }

  function Actor(p: Principal): Decider
  {
    if p.master then Master else Key(p.apiKeyId)
  }

  /** A decision by someone entitled to decide this admission. */
  ghost predicate MayDecide(keys: Delegation.Keys, t: Tables, a: string, p: Principal)
  {
    && CanApprove(p) && a in t.admissions
    && (p.master || Delegation.Independent(keys, t.admissions[a].apiKeyId, p.apiKeyId))
  }

  datatype Event =
    | Admit(request: Request)
    | Release(reference: string, unused: nat, posted: bool)
    | Decide(admission: string, principal: Principal, approve: bool)

  /** A refused operation changes nothing. A release triggered by a posting also rejects an
      exhausted admission when it has nothing left to give back. */
  ghost function Step(keys: Delegation.Keys, t: Tables, e: Event): Tables
  {
    match e
    case Admit(r) =>
      if (exists a :: Recorded(t, r.key, r.identity, a)) || r.policies == [] || !Admissible(t, r) then t else Admitted(t, r)
    case Release(ref, unused, posted) =>
      if ref !in t.bindings || unused > t.bindings[ref].amount then t
      else if unused > t.bindings[ref].released || posted then RejectExhausted(GiveBack(t, ref, unused), t.bindings[ref].admission)
      else t
    case Decide(a, p, approve) =>
      if MayDecide(keys, t, a, p) && t.admissions[a].decision == Pending then WithDecision(t, a, Verdict(approve), Actor(p)) else t
  }

  ghost function Run(keys: Delegation.Keys, t: Tables, events: seq<Event>): Tables
  {
    if events == [] then t else Step(keys, Run(keys, t, events[..|events| - 1]), events[|events| - 1])
  }

  const EMPTY := Tables(map[], map[], map[], map[])

  // ----- budget accounting in every reachable state

  lemma EmptyIsSound()
    ensures Inv(EMPTY)
  {
    hide Sums.Total;
    forall b ensures Used(EMPTY.usage, b) == Sums.Total(Held(EMPTY, b)) {
      assert Held(EMPTY, b) == map[];
      Sums.Zero(Held(EMPTY, b));
    }
  }

  lemma RejectKeeps(t: Tables, a: string)
    requires Inv(t)
    ensures Inv(RejectExhausted(t, a))
  {
    hide Inv, FullyReleased, WithDecision;
    if a in t.admissions {
      DecisionKeeps(t, a, Rejected, System);
    }
  }

  lemma StepKeeps(keys: Delegation.Keys, t: Tables, e: Event)
    requires Inv(t)
    ensures Inv(Step(keys, t, e))
  {
    hide Inv, Admitted, Admissible, GiveBack, RejectExhausted, WithDecision, Recorded;
    match e
    case Admit(r) =>
      if (forall a :: !Recorded(t, r.key, r.identity, a)) && r.policies != [] && Admissible(t, r) {
        AdmitKeeps(t, r);
      }
    case Release(ref, unused, posted) =>
      if ref in t.bindings && unused <= t.bindings[ref].amount {
        GiveBackKeeps(t, ref, unused);
        RejectKeeps(GiveBack(t, ref, unused), t.bindings[ref].admission);
      }
    case Decide(a, p, approve) =>
      if a in t.admissions {
        DecisionKeeps(t, a, Verdict(approve), Actor(p));
      }
  }

  lemma {:induction false} RunKeeps(keys: Delegation.Keys, t: Tables, events: seq<Event>)
    requires Inv(t)
    ensures Inv(Run(keys, t, events))
  {
    hide Inv, Step;
    if events != [] {
      RunKeeps(keys, t, events[..|events| - 1]);
      StepKeeps(keys, Run(keys, t, events[..|events| - 1]), events[|events| - 1]);
    }
  }

  lemma HeldNonNegative(t: Tables, a: string, b: Bucket)
    requires Inv(t) && Charges(t, a, b)
    ensures HeldBy(t, a, b) >= 0
  {
    hide Sums.Total, UsageIsHeld, OncePerIdentity;
    var amounts, releases := Amounts(t.bindings, a, b.rule), Releases(t.bindings, a, b.rule);
    var open := map ref | ref in amounts :: amounts[ref] - releases[ref];
    assert releases.Keys == amounts.Keys == open.Keys;
    Sums.Linear(open, releases, amounts);
    Sums.Bounds(open);
    assert BudgetId(a, b.key, b.rule) in t.budgets;
  }

  /** In every reachable state, what is used of a bucket is the sum over the admissions charged to
      it of the charged amount less what was given back, and it is never negative. */
  lemma BudgetAccounting(keys: Delegation.Keys, events: seq<Event>, b: Bucket)
    ensures var t := Run(keys, EMPTY, events); Used(t.usage, b) == Sums.Total(Held(t, b)) >= 0
  {
    hide Run, Held, Used, Charges, HeldBy, BindingsSound, BudgetsSound, OncePerIdentity;
    var t := Run(keys, EMPTY, events);
    EmptyIsSound();
    RunKeeps(keys, EMPTY, events);
    HeldIs(t, b);
    forall a | a in Held(t, b) ensures Held(t, b)[a] >= 0 {
      HeldNonNegative(t, a, b);
    }
    Sums.Bounds(Held(t, b));
  }

  /** Right after an admission, every charged key is within its daily limit. */
  lemma AdmittedWithinDaily(t: Tables, r: Request, p: KeyPolicy, k: string)
    requires Admissible(t, r) && p in r.policies && k in Totals(r.legs)
    ensures Used(Admitted(t, r).usage, Bucket(p.apiKeyId, k, r.day)) == Used(t.usage, Bucket(p.apiKeyId, k, r.day)) + Totals(r.legs)[k]
    ensures Within(DailyOf(p, k), Used(Admitted(t, r).usage, Bucket(p.apiKeyId, k, r.day)))
  {
    hide ChargedUsage, Totals, DailyOf, ChargedBudgets, NewBindings, AllAdmit, AllWithinMax, Fresh, Used, Versions, DecisionFor;
    UsedAfterCharge(t.usage, Payers(r.policies), Totals(r.legs), r.day, Bucket(p.apiKeyId, k, r.day));
    assert WithinDaily(t.usage, p, Totals(r.legs), r.day);
    assert p.apiKeyId in Payers(r.policies);
  }

  // ----- what never changes

  /** An admission's record, except for a decision taken while it was pending. */
  ghost predicate Kept(before: Admission, after: Admission)
  {
    after == before || (before.decision == Pending && after == before.(decision := after.decision, decidedBy := after.decidedBy))
  }

  ghost predicate AllKept(t: Tables, after: Tables)
  {
    && (forall a | a in t.admissions :: a in after.admissions && Kept(t.admissions[a], after.admissions[a]))
    && (forall ref | ref in t.bindings :: ref in after.bindings &&
          after.bindings[ref] == t.bindings[ref].(released := after.bindings[ref].released) &&
          after.bindings[ref].released >= t.bindings[ref].released)
  }

  lemma AdmittedKeepsRecords(t: Tables, r: Request)
    requires Admissible(t, r)
    ensures AllKept(t, Admitted(t, r))
  {
    hide ChargedUsage, ChargedBudgets, Totals, DecisionFor, Versions, WithinDaily, AllAdmit, AllWithinMax, TransactionBound;
    forall ref | ref in NewBindings(r.id, r.legs) ensures ref !in t.bindings {
      var i := NewBindingFrom(r.id, r.legs, ref);
    }
  }

  lemma GiveBackKeepsRecords(t: Tables, ref: string, unused: nat)
    requires ref in t.bindings
    ensures AllKept(t, GiveBack(t, ref, unused))
  {
    hide ReleasedUsage;
  }

  lemma DecisionKeepsRecords(t: Tables, a: string, decision: Decision, actor: Decider)
    requires a in t.admissions && t.admissions[a].decision == Pending
    ensures AllKept(t, WithDecision(t, a, decision, actor))
  {
  }

  lemma KeptThroughout(t: Tables, mid: Tables, after: Tables)
    requires AllKept(t, mid) && AllKept(mid, after)
    ensures AllKept(t, after)
  {
  }

  lemma RejectKeepsRecords(t: Tables, a: string)
    ensures AllKept(t, RejectExhausted(t, a))
  {
    hide FullyReleased, AllKept, WithDecision;
    if a in t.admissions && t.admissions[a].decision == Pending {
      DecisionKeepsRecords(t, a, Rejected, System);
    }
    AllKeptItself(t);
  }

  lemma AllKeptItself(t: Tables)
    ensures AllKept(t, t)
  {
  }

  lemma StepKeepsRecords(keys: Delegation.Keys, t: Tables, e: Event)
    ensures AllKept(t, Step(keys, t, e))
  {
    hide Admissible, Admitted, AllKept, GiveBack, RejectExhausted, WithDecision, Recorded, CanApprove;
    AllKeptItself(t);
    match e
    case Admit(r) =>
      if Admissible(t, r) {
        AdmittedKeepsRecords(t, r);
      }
    case Release(ref, unused, posted) =>
      if ref in t.bindings {
        var mid := GiveBack(t, ref, unused);
        GiveBackKeepsRecords(t, ref, unused);
        RejectKeepsRecords(mid, t.bindings[ref].admission);
        KeptThroughout(t, mid, RejectExhausted(mid, t.bindings[ref].admission));
      }
    case Decide(a, p, approve) =>
      if a in t.admissions && t.admissions[a].decision == Pending {
        DecisionKeepsRecords(t, a, Verdict(approve), Actor(p));
      }
  }

  lemma {:induction false} RunKeepsRecords(keys: Delegation.Keys, t: Tables, events: seq<Event>)
    ensures AllKept(t, Run(keys, t, events))
  {
    hide Step, AllKept;
    AllKeptItself(t);
    if events != [] {
      var mid := Run(keys, t, events[..|events| - 1]);
      RunKeepsRecords(keys, t, events[..|events| - 1]);
      StepKeepsRecords(keys, mid, events[|events| - 1]);
      KeptThroughout(t, mid, Step(keys, mid, events[|events| - 1]));
    }
  }

  /** Finality: no run changes an admission that has left pending. */
  lemma DecisionIsFinal(keys: Delegation.Keys, t: Tables, events: seq<Event>, a: string)
    requires a in t.admissions && t.admissions[a].decision != Pending
    ensures a in Run(keys, t, events).admissions && Run(keys, t, events).admissions[a] == t.admissions[a]
  {
    hide Run;
    RunKeepsRecords(keys, t, events);
  }

  /** Rejected, or partly given back: such an admission is not handed out again. */
  ghost predicate Spent(t: Tables, a: string)
  {
    && a in t.admissions
    && (t.admissions[a].decision == Rejected || exists ref | ref in t.bindings :: t.bindings[ref].admission == a && t.bindings[ref].released > 0)
  }

  lemma SpentStaysSpent(keys: Delegation.Keys, t: Tables, events: seq<Event>, a: string)
    requires Spent(t, a)
    ensures Spent(Run(keys, t, events), a)
  {
    hide Run;
    RunKeepsRecords(keys, t, events);
    if ref :| ref in t.bindings && t.bindings[ref].admission == a && t.bindings[ref].released > 0 {
      assert ref in Run(keys, t, events).bindings;
    }
  }

  /** Charged at most once: after an admission no later request for its key and identity, with the
      same legs or others, ever changes anything again. */
  lemma ChargedOnce(keys: Delegation.Keys, t: Tables, events: seq<Event>, a: string, r: Request)
    requires Recorded(t, r.key, r.identity, a)
    ensures var later := Run(keys, t, events); Recorded(later, r.key, r.identity, a) && Step(keys, later, Admit(r)) == later
  {
    hide Run, Admitted, Admissible;
    RunKeepsRecords(keys, t, events);
    assert Recorded(Run(keys, t, events), r.key, r.identity, a);
  }

  // ----- approvals

  ghost predicate ApprovalsSound(keys: Delegation.Keys, t: Tables)
  {
    forall a | a in t.admissions && t.admissions[a].decision == Approved ::
      var decider := t.admissions[a].decidedBy;
      decider == Master || (decider.Key? && Delegation.Independent(keys, t.admissions[a].apiKeyId, decider.id))
  }

  lemma StepKeepsApprovals(keys: Delegation.Keys, t: Tables, e: Event)
    requires ApprovalsSound(keys, t)
    ensures ApprovalsSound(keys, Step(keys, t, e))
  {
    hide ReleasedUsage, ChargedUsage, ChargedBudgets, NewBindings, Totals, Versions, Admissible, FullyReleased,
      Delegation.Independent;
  }

  /** Independence: in every reachable state each approval came from the master or from a key that is
      independent of the key that asked. */
  lemma {:induction false} ApprovalsAreIndependent(keys: Delegation.Keys, events: seq<Event>)
    ensures ApprovalsSound(keys, Run(keys, EMPTY, events))
  {
    hide Step;
    if events != [] {
      ApprovalsAreIndependent(keys, events[..|events| - 1]);
      StepKeepsApprovals(keys, Run(keys, EMPTY, events[..|events| - 1]), events[|events| - 1]);
    }
  }

  /** The system rejects only a pending admission with nothing left to spend. */
  lemma SystemRejectsOnlyExhausted(keys: Delegation.Keys, t: Tables, ref: string, unused: nat, posted: bool, a: string)
    requires a in t.admissions
    requires Step(keys, t, Release(ref, unused, posted)).admissions[a] != t.admissions[a]
    ensures t.admissions[a].decision == Pending && FullyReleased(Step(keys, t, Release(ref, unused, posted)).bindings, a)
    ensures Step(keys, t, Release(ref, unused, posted)).admissions[a] == t.admissions[a].(decision := Rejected, decidedBy := System)
  {
    hide ReleasedUsage, FullyReleased;
  }

  // ----- releases

  /** What the releases of one binding in a run asked for; more than its amount is never released. */
  function ReleaseAmounts(events: seq<Event>, ref: string, amount: nat): seq<nat>
  {
    if events == [] then []
    else
      var front, e := ReleaseAmounts(events[..|events| - 1], ref, amount), events[|events| - 1];
      if e.Release? && e.reference == ref && e.unused <= amount then front + [e.unused] else front
  }

  function Highest(start: nat, amounts: seq<nat>): nat
  {
    if amounts == [] then start else Max(Highest(start, amounts[..|amounts| - 1]), amounts[|amounts| - 1])
  }

  lemma AdmittedKeepsBinding(t: Tables, r: Request, ref: string)
    requires Admissible(t, r) && ref in t.bindings
    ensures ref in Admitted(t, r).bindings && Admitted(t, r).bindings[ref] == t.bindings[ref]
  {
    hide ChargedUsage, ChargedBudgets, Totals, DecisionFor, Versions, WithinDaily, AllAdmit, AllWithinMax, TransactionBound;
    if ref in NewBindings(r.id, r.legs) {
      var i := NewBindingFrom(r.id, r.legs, ref);
    }
  }

  lemma StepReleases(keys: Delegation.Keys, t: Tables, e: Event, ref: string)
    requires ref in t.bindings
    ensures ref in Step(keys, t, e).bindings
    ensures
      var x := t.bindings[ref];
      Step(keys, t, e).bindings[ref] == x.(released := Highest(x.released, ReleaseAmounts([e], ref, x.amount)))
  {
    hide Admissible, Admitted, GiveBack, RejectExhausted, WithDecision, Recorded, CanApprove, Delegation.Independent, Highest,
      ReleaseAmounts;
    OneRelease(e, ref, t.bindings[ref].released, t.bindings[ref].amount);
    match e
    case Admit(r) =>
      if Admissible(t, r) {
        AdmittedKeepsBinding(t, r, ref);
      }
    case Release(other, unused, posted) =>
      if other in t.bindings && unused <= t.bindings[other].amount {
        GiveBackBinding(t, other, unused, ref);
      }
    case Decide(a, p, approve) =>
      if a in t.admissions {
        DecisionKeepsBindings(t, a, Verdict(approve), Actor(p));
      }
  }

  lemma OneRelease(e: Event, ref: string, released: nat, amount: nat)
    ensures Highest(released, ReleaseAmounts([e], ref, amount)) ==
      if e.Release? && e.reference == ref && e.unused <= amount then Max(released, e.unused) else released
    ensures |ReleaseAmounts([e], ref, amount)| <= 1
  {
    assert [e][..0] == [];
    if e.Release? {
      assert [e.unused][..0] == [];
    }
  }

  lemma GiveBackBinding(t: Tables, other: string, unused: nat, ref: string)
    requires other in t.bindings && ref in t.bindings
    ensures RejectExhausted(GiveBack(t, other, unused), t.bindings[other].admission).bindings == GiveBack(t, other, unused).bindings
    ensures ref in GiveBack(t, other, unused).bindings
    ensures GiveBack(t, other, unused).bindings[ref] ==
      if other == ref then t.bindings[ref].(released := Max(t.bindings[ref].released, unused)) else t.bindings[ref]
  {
    hide ReleasedUsage, FullyReleased;
  }

  lemma DecisionKeepsBindings(t: Tables, a: string, decision: Decision, actor: Decider)
    requires a in t.admissions
    ensures WithDecision(t, a, decision, actor).bindings == t.bindings
  {
  }

  lemma {:induction false} HighestTwice(start: nat, a: seq<nat>, b: seq<nat>)
    requires |b| <= 1
    ensures Highest(start, a + b) == Highest(Highest(start, a), b)
  {
    if b == [] {
      assert a + b == a;
    } else {
      assert (a + b)[..|a + b| - 1] == a && b[..0] == [];
    }
  }

  /** Over every run, whatever else happens in between, what a binding has given back is the running
      maximum of what its releases asked for: no unit is given back twice. */
  lemma {:induction false} ReleasesAreRunningMaximum(keys: Delegation.Keys, t: Tables, events: seq<Event>, ref: string)
    requires ref in t.bindings
    ensures ref in Run(keys, t, events).bindings
    ensures
      var x := t.bindings[ref];
      Run(keys, t, events).bindings[ref] == x.(released := Highest(x.released, ReleaseAmounts(events, ref, x.amount)))
    decreases |events|
  {
    hide Step;
    if events != [] {
      var front, e := events[..|events| - 1], events[|events| - 1];
      var x := t.bindings[ref];
      ReleasesAreRunningMaximum(keys, t, front, ref);
      StepReleases(keys, Run(keys, t, front), e, ref);
      OneRelease(e, ref, x.released, x.amount);
      assert [e][..0] == [];
      assert ReleaseAmounts(events, ref, x.amount) == ReleaseAmounts(front, ref, x.amount) + ReleaseAmounts([e], ref, x.amount);
      HighestTwice(x.released, ReleaseAmounts(front, ref, x.amount), ReleaseAmounts([e], ref, x.amount));
    }
  }

  // ----- keys registered during the run

  datatype Action = Policy(event: Event) | Register(id: string, parent: Option<string>)

  datatype World = World(keys: Delegation.Keys, tables: Tables)

  ghost function Act(w: World, a: Action): World
  {
    match a
    case Policy(e) => w.(tables := Step(w.keys, w.tables, e))
    case Register(id, parent) => w.(keys := Delegation.Register(w.keys, id, parent).GetOr(w.keys))
  }

  ghost function ActAll(w: World, actions: seq<Action>): World
  {
    if actions == [] then w else Act(ActAll(w, actions[..|actions| - 1]), actions[|actions| - 1])
  }

  /** The approval is by the master, or by a key that stays independent whatever is registered later. */
  ghost predicate Lasts(keys: Delegation.Keys, requester: string, decider: Decider)
  {
    decider == Master || (decider.Key? && Delegation.StaysIndependent(keys, requester, decider.id))
  }

  ghost predicate ApprovalsLast(w: World)
  {
    forall a | a in w.tables.admissions && w.tables.admissions[a].decision == Approved ::
      Lasts(w.keys, w.tables.admissions[a].apiKeyId, w.tables.admissions[a].decidedBy)
  }

  /** A key's approval that takes effect comes from a lasting approver. */
  ghost predicate ByLasting(w: World, a: Action)
  {
    a.Policy? && a.event.Decide? && a.event.approve && !a.event.principal.master ==>
      var id, p := a.event.admission, a.event.principal;
      MayDecide(w.keys, w.tables, id, p) && w.tables.admissions[id].decision == Pending ==>
        Delegation.Lasting(w.keys, w.tables.admissions[id].apiKeyId, p.apiKeyId)
  }

  lemma LastsIff(keys: Delegation.Keys, requester: string, decider: Decider)
    requires Delegation.AllWithinDepth(keys)
    ensures Lasts(keys, requester, decider) <==>
            decider == Master || (decider.Key? && Delegation.Independent(keys, requester, decider.id) && Delegation.Lasting(keys, requester, decider.id))
  {
    hide Delegation.Independent, Delegation.Lasting, Delegation.AllWithinDepth, Delegation.StaysIndependent;
    if decider.Key? {
      Delegation.StaysIndependentIff(keys, requester, decider.id);
    }
  }

  lemma LastsOn(keys: Delegation.Keys, id: string, parent: Option<string>, requester: string, decider: Decider)
    requires Delegation.AllWithinDepth(keys) && Lasts(keys, requester, decider)
    ensures var later := Delegation.Register(keys, id, parent).GetOr(keys);
      Delegation.AllWithinDepth(later) && Lasts(later, requester, decider)
  {
    hide Lasts, Delegation.Independent, Delegation.Lasting, Delegation.AllWithinDepth, Delegation.Register;
    var later := Delegation.Register(keys, id, parent).GetOr(keys);
    Delegation.OneRegistration(keys, id, parent);
    Delegation.AncestryNeverChanges(keys, [(id, parent)]);
    LastsIff(keys, requester, decider);
    LastsIff(later, requester, decider);
    if decider.Key? {
      Delegation.LastingIsForever(keys, [(id, parent)], requester, decider.id);
    }
  }

  lemma RegisterKeepsDepth(keys: Delegation.Keys, id: string, parent: Option<string>)
    requires Delegation.AllWithinDepth(keys)
    ensures Delegation.AllWithinDepth(Delegation.Register(keys, id, parent).GetOr(keys))
  {
    hide Delegation.AllWithinDepth, Delegation.Register;
    Delegation.OneRegistration(keys, id, parent);
    Delegation.AncestryNeverChanges(keys, [(id, parent)]);
  }

  /** What an event leaves approved: what was, and the admission it approves. */
  lemma StepApproves(keys: Delegation.Keys, t: Tables, e: Event, a: string)
    requires a in Step(keys, t, e).admissions && Step(keys, t, e).admissions[a].decision == Approved
    ensures a in t.admissions && Step(keys, t, e).admissions[a].apiKeyId == t.admissions[a].apiKeyId
    ensures t.admissions[a].decision == Approved ==> Step(keys, t, e).admissions[a] == t.admissions[a]
    ensures t.admissions[a].decision != Approved ==>
      && e.Decide? && e.admission == a && e.approve && MayDecide(keys, t, a, e.principal) && t.admissions[a].decision == Pending
      && Step(keys, t, e).admissions[a].decidedBy == Actor(e.principal)
  {
    hide ReleasedUsage, ChargedUsage, ChargedBudgets, NewBindings, Totals, Versions, Admissible, FullyReleased,
      Delegation.Independent;
  }

  /** An approval that takes effect, and none that was there before is lost. */
  lemma StepKeepsApproved(keys: Delegation.Keys, t: Tables, e: Event, a: string)
    requires a in t.admissions
    ensures a in Step(keys, t, e).admissions
    ensures t.admissions[a].decision == Approved ==> Step(keys, t, e).admissions[a] == t.admissions[a]
    ensures e.Decide? && e.admission == a && e.approve && MayDecide(keys, t, a, e.principal) && t.admissions[a].decision == Pending ==>
      var after := Step(keys, t, e).admissions[a];
      after.decision == Approved && after.decidedBy == Actor(e.principal) && after.apiKeyId == t.admissions[a].apiKeyId
  {
    hide ReleasedUsage, ChargedUsage, ChargedBudgets, NewBindings, Totals, Versions, FullyReleased, Delegation.Independent;
  }

  /** One action keeps all approvals lasting if and only if it is not an approval by another key. */
  lemma ActLastsIff(w: World, a: Action)
    requires Delegation.AllWithinDepth(w.keys) && ApprovalsLast(w)
    ensures Delegation.AllWithinDepth(Act(w, a).keys)
    ensures ApprovalsLast(Act(w, a)) <==> ByLasting(w, a)
  {
    hide Lasts, Step, MayDecide, Delegation.Lasting, Delegation.AllWithinDepth, Delegation.Register;
    match a
    case Register(id, parent) =>
      RegisterKeepsDepth(w.keys, id, parent);
      forall x | x in w.tables.admissions && w.tables.admissions[x].decision == Approved
        ensures Lasts(Act(w, a).keys, w.tables.admissions[x].apiKeyId, w.tables.admissions[x].decidedBy)
      {
        LastsOn(w.keys, id, parent, w.tables.admissions[x].apiKeyId, w.tables.admissions[x].decidedBy);
      }
    case Policy(e) => EventLastsIff(w, e);
  }

  lemma EventLastsIff(w: World, e: Event)
    requires Delegation.AllWithinDepth(w.keys) && ApprovalsLast(w)
    ensures ApprovalsLast(Act(w, Policy(e))) <==> ByLasting(w, Policy(e))
  {
    hide Lasts, Step, MayDecide, Delegation.Lasting, Delegation.AllWithinDepth, Delegation.Independent;
    var t, after := w.tables, Step(w.keys, w.tables, e);
    if ByLasting(w, Policy(e)) {
      forall x | x in after.admissions && after.admissions[x].decision == Approved
        ensures Lasts(w.keys, after.admissions[x].apiKeyId, after.admissions[x].decidedBy)
      {
        StepApproves(w.keys, t, e, x);
        if t.admissions[x].decision != Approved {
          EntitledIsIndependent(w.keys, t, x, e.principal);
          LastsIff(w.keys, t.admissions[x].apiKeyId, Actor(e.principal));
        }
      }
    } else {
      var x := e.admission;
      EntitledIsIndependent(w.keys, t, x, e.principal);
      StepKeepsApproved(w.keys, t, e, x);
      LastsIff(w.keys, t.admissions[x].apiKeyId, Actor(e.principal));
    }
  }

  lemma EntitledIsIndependent(keys: Delegation.Keys, t: Tables, a: string, p: Principal)
    requires MayDecide(keys, t, a, p)
    ensures a in t.admissions && (p.master || Delegation.Independent(keys, t.admissions[a].apiKeyId, p.apiKeyId))
  {
  }

  ghost predicate LastThroughout(w: World, actions: seq<Action>)
  {
    forall n | 0 <= n <= |actions| :: ApprovalsLast(ActAll(w, actions[..n]))
  }

  ghost predicate ByLastingThroughout(w: World, actions: seq<Action>)
  {
    forall n | 0 <= n < |actions| :: ByLasting(ActAll(w, actions[..n]), actions[n])
  }

  /** Approvals stay independent at every moment of a run, and whatever is registered later, if and only
      if each one, when it was given, came from the master, from a registered root, or from a registered
      key on the request of a registered key. */
  lemma {:induction false} ApprovalsLastIff(w: World, actions: seq<Action>)
    requires Delegation.AllWithinDepth(w.keys) && ApprovalsLast(w)
    ensures Delegation.AllWithinDepth(ActAll(w, actions).keys)
    ensures LastThroughout(w, actions) <==> ByLastingThroughout(w, actions)
    decreases |actions|
  {
    hide *;
    if actions == [] {
      NoAction(w);
    } else {
      var front, a := actions[..|actions| - 1], actions[|actions| - 1];
      ApprovalsLastIff(w, front);
      LastAction(w, actions);
      KeepsDepth(ActAll(w, front), a);
      if LastThroughout(w, front) {
        LastNow(w, front);
        ActLastsIff(ActAll(w, front), a);
      }
    }
  }

  lemma NoAction(w: World)
    requires ApprovalsLast(w)
    ensures ActAll(w, []) == w && LastThroughout(w, []) && ByLastingThroughout(w, [])
  {
    hide ApprovalsLast;
    var none: seq<Action> := [];
    assert none[..0] == none;
  }

  lemma LastNow(w: World, actions: seq<Action>)
    requires LastThroughout(w, actions)
    ensures ApprovalsLast(ActAll(w, actions))
  {
    hide ApprovalsLast, ActAll;
    assert actions[..|actions|] == actions;
  }

  lemma LastAction(w: World, actions: seq<Action>)
    requires actions != []
    ensures var front, a := actions[..|actions| - 1], actions[|actions| - 1];
      && ActAll(w, actions) == Act(ActAll(w, front), a)
      && (LastThroughout(w, actions) <==> LastThroughout(w, front) && ApprovalsLast(ActAll(w, actions)))
      && (ByLastingThroughout(w, actions) <==> ByLastingThroughout(w, front) && ByLasting(ActAll(w, front), a))
  {
    hide ApprovalsLast, ByLasting, Act;
    var front := actions[..|actions| - 1];
    Prefixes(actions);
    assert LastThroughout(w, actions) <==> LastThroughout(w, front) && ApprovalsLast(ActAll(w, actions)) by {
      hide ActAll;
    }
    assert ByLastingThroughout(w, actions) <==> ByLastingThroughout(w, front) && ByLasting(ActAll(w, front), actions[|front|]) by {
      hide ActAll;
    }
  }

  lemma Prefixes(actions: seq<Action>)
    requires actions != []
    ensures var front := actions[..|actions| - 1];
      && (forall n | 0 <= n <= |front| :: actions[..n] == front[..n])
      && actions[..|actions|] == actions && front[..|front|] == front
  {
  }

  lemma KeepsDepth(w: World, a: Action)
    requires Delegation.AllWithinDepth(w.keys)
    ensures Delegation.AllWithinDepth(Act(w, a).keys)
  {
    hide Step, Delegation.AllWithinDepth, Delegation.Register;
    if a.Register? {
      RegisterKeepsDepth(w.keys, a.id, a.parent);
    }
  }

  // ----- authenticated keys

  const START := World(map[], EMPTY)

  /** Requests and decisions come from registered keys, as authentication makes sure. */
  ghost predicate Authenticated(w: World, a: Action)
  {
    a.Policy? ==>
      && (a.event.Admit? ==> a.event.request.key in w.keys)
      && (a.event.Decide? ==> a.event.principal.master || a.event.principal.apiKeyId in w.keys)
  }

  ghost predicate AllAuthenticated(actions: seq<Action>)
  {
    forall n | 0 <= n < |actions| :: Authenticated(ActAll(START, actions[..n]), actions[n])
  }

  ghost predicate RequestersRegistered(w: World)
  {
    forall a | a in w.tables.admissions :: w.tables.admissions[a].apiKeyId in w.keys
  }

  lemma ActKeepsRequesters(w: World, a: Action)
    requires RequestersRegistered(w) && Authenticated(w, a)
    ensures RequestersRegistered(Act(w, a))
  {
    hide ReleasedUsage, ChargedUsage, ChargedBudgets, NewBindings, Totals, Versions, Admissible, FullyReleased,
      Delegation.Rows, Delegation.Independent;
  }

  lemma {:induction false} RunKeepsRequesters(actions: seq<Action>)
    requires AllAuthenticated(actions)
    ensures RequestersRegistered(ActAll(START, actions))
  {
    hide RequestersRegistered, Authenticated, Act;
    if actions == [] {
      NothingApprovedYet();
    } else {
      var front := actions[..|actions| - 1];
      assert forall n | 0 <= n < |front| :: front[..n] == actions[..n];
      RunKeepsRequesters(front);
      assert Authenticated(ActAll(START, actions[..|actions| - 1]), actions[|actions| - 1]);
      ActKeepsRequesters(ActAll(START, front), actions[|actions| - 1]);
    }
  }

  lemma NothingApprovedYet()
    ensures Delegation.AllWithinDepth(START.keys) && ApprovalsLast(START) && RequestersRegistered(START)
  {
  }

  /** From the empty store, with authenticated keys only, every approval is by the master or by a key that
      is independent of the requester and stays so. */
  lemma ApprovalsStayIndependent(actions: seq<Action>)
    requires AllAuthenticated(actions)
    ensures LastThroughout(START, actions)
  {
    hide LastThroughout, ActAll, ApprovalsLast, Delegation.AllWithinDepth;
    NothingApprovedYet();
    forall n | 0 <= n < |actions| ensures ByLasting(ActAll(START, actions[..n]), actions[n]) {
      var front := actions[..n];
      assert forall m | 0 <= m < n :: front[..m] == actions[..m];
      RunKeepsRequesters(front);
    }
    ApprovalsLastIff(START, actions);
  }
}
