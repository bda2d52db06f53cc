/** The policy operations on the stored tables. Each works inside one database transaction: it
    changes local copies and stores them only when it commits. */
module PolicyStore {
  import opened Basics
  import opened PolicyRules
  import opened Budgets
  import opened PolicyRuns
  import opened PolicyFamily
  import Decimals
  import Delegation

  datatype PolicyError = Denied | IdentityConflict | InvalidAmount | NoLegs | AlreadyAdmitted | NotFound | DecisionFinal

  // ----- the passes of an admission

  /** The per-rule totals of the legs, if the policy in force allows every leg. */
  method AddUpLegs(p: KeyPolicy, legs: seq<Leg>) returns (r: Result<map<string, nat>, PolicyError>)
    requires !p.denyAll
    ensures r.Ok? <==> forall leg | leg in legs :: Integer(leg.amount).Some? && Admits(p, leg)
    ensures r.Ok? ==> r.value == Totals(legs)
  {
    hide Find, KeyOf, Integer;
    var totals: map<string, nat> := map[];
    for i := 0 to |legs|
      invariant totals == Totals(legs[..i])
      invariant forall j | 0 <= j < i :: Integer(legs[j].amount).Some? && Admits(p, legs[j])
    {
      var leg := legs[i];
      assert legs[..i + 1][..i] == legs[..i];
      var n := Integer(leg.amount);
      if n.None? {
        return Err(InvalidAmount);
      }
      var k := KeyOf(leg);
      if Find(p.rules, k).None? {
        return Err(Denied);
      }
      if !AllowsParties(p, leg) {
        return Err(Denied);
      }
      if k !in totals {
        totals := totals[k := 0];
      }
      totals := totals[k := totals[k] + n.value];
    }
    assert legs[..|legs|] == legs;
    r := Ok(totals);
  }

  /** Transaction limits and approval thresholds of the policy in force. */
  method CheckTotals(p: KeyPolicy, totals: map<string, nat>) returns (allowed: bool, decision: Decision)
    ensures allowed <==> forall k | k in totals :: Within(MaxOf(p, k), totals[k])
    ensures allowed ==> decision == if exists k | k in totals :: !Within(ApprovalOf(p, k), totals[k]) then Pending else NotRequired
  {
    hide Find, MaxOf, ApprovalOf;
    decision := NotRequired;
    var rest := totals;
    while rest != map[]
      invariant forall k | k in rest :: k in totals && rest[k] == totals[k]
      invariant forall k | k in totals && k !in rest :: Within(MaxOf(p, k), totals[k])
      invariant decision == Pending ==> exists k | k in totals :: !Within(ApprovalOf(p, k), totals[k])
      invariant decision == Pending || (decision == NotRequired && forall k | k in totals && k !in rest :: Within(ApprovalOf(p, k), totals[k]))
      decreases |rest|
    {
      var k :| k in rest;
      if !Within(MaxOf(p, k), rest[k]) {
        return false, decision;
      }
      if !Within(ApprovalOf(p, k), rest[k]) {
        decision := Pending;
      }
      assert |rest - {k}| < |rest| by { assert (rest - {k}).Keys == rest.Keys - {k}; }
      rest := rest - {k};
    }
    allowed := true;
  }

  lemma ChargeNothing(usage: map<Bucket, int>, payers: set<string>, day: int)
    ensures ChargedUsage(usage, payers, map[], day) == usage
  {
    assert BucketsOf(payers, map[], day) == {};
  }

  lemma ChargeOneMore(usage: map<Bucket, int>, key: string, done: map<string, nat>, k: string, n: nat, day: int)
    requires k !in done
    ensures
      var b, now := Bucket(key, k, day), ChargedUsage(usage, {key}, done, day);
      Used(now, b) == Used(usage, b) && ChargedUsage(usage, {key}, done[k := n], day) == now[b := Used(now, b) + n]
  {
    var b, now, after := Bucket(key, k, day), ChargedUsage(usage, {key}, done, day), ChargedUsage(usage, {key}, done[k := n], day);
    UsedAfterCharge(usage, {key}, done, day, b);
    forall c ensures c in after <==> c in now || c == b {
      if c in BucketsOf({key}, done[k := n], day) && c.rule != k {
        assert c == Bucket(c.key, c.rule, day) && c in BucketsOf({key}, done, day);
      }
      if c in BucketsOf({key}, done, day) {
        assert c == Bucket(c.key, c.rule, day) && c in BucketsOf({key}, done[k := n], day);
      }
      assert key in {key} && k in done[k := n];
      assert b in BucketsOf({key}, done[k := n], day);
    }
  }

  /** Charges one ancestor, or refuses when one of its daily limits would be passed. */
  method ChargeAncestor(usage: map<Bucket, int>, p: KeyPolicy, totals: map<string, nat>, day: int) returns (r: Option<map<Bucket, int>>)
    ensures r.Some? <==> WithinDaily(usage, p, totals, day)
    ensures r.Some? ==> r.value == ChargedUsage(usage, {p.apiKeyId}, totals, day)
  {
    hide Find, DailyOf, ChargedUsage;
    var now, rest := usage, totals;
    ghost var done: map<string, nat> := map[];
    ChargeNothing(usage, {p.apiKeyId}, day);
    while rest != map[]
      invariant forall k | k in rest :: k in totals && rest[k] == totals[k] && k !in done
      invariant forall k | k in done :: k in totals && done[k] == totals[k]
      invariant forall k | k in totals :: k in rest || k in done
      invariant forall k | k in done :: Within(DailyOf(p, k), Used(usage, Bucket(p.apiKeyId, k, day)) + totals[k])
      invariant now == ChargedUsage(usage, {p.apiKeyId}, done, day)
      decreases |rest|
    {
      var k :| k in rest;
      var b := Bucket(p.apiKeyId, k, day);
      ChargeOneMore(usage, p.apiKeyId, done, k, rest[k], day);
      var current := Used(now, b) + rest[k];
      if !Within(DailyOf(p, k), current) {
        return None;
      }
      now := now[b := current];
      done := done[k := rest[k]];
      assert |rest - {k}| < |rest| by { assert (rest - {k}).Keys == rest.Keys - {k}; }
      rest := rest - {k};
    }
    assert done == totals;
    r := Some(now);
  }

  predicate DistinctKeys(ps: seq<KeyPolicy>)
  {
    forall i, j | 0 <= i < j < |ps| :: ps[i].apiKeyId != ps[j].apiKeyId
  }

  lemma ChargeAnotherPayer(usage: map<Bucket, int>, payers: set<string>, key: string, totals: map<string, nat>, day: int)
    requires key !in payers
    ensures var now := ChargedUsage(usage, payers, totals, day);
      && (forall k | k in totals :: Used(now, Bucket(key, k, day)) == Used(usage, Bucket(key, k, day)))
      && ChargedUsage(usage, payers + {key}, totals, day) == ChargedUsage(now, {key}, totals, day)
  {
    hide ChargedUsage, BucketsOf;
    var now := ChargedUsage(usage, payers, totals, day);
    var both, next := ChargedUsage(usage, payers + {key}, totals, day), ChargedUsage(now, {key}, totals, day);
    forall b ensures Used(both, b) == Used(next, b) {
      UsedAfterCharge(usage, payers + {key}, totals, day, b);
      UsedAfterCharge(now, {key}, totals, day, b);
      UsedAfterCharge(usage, payers, totals, day, b);
    }
    forall k | k in totals ensures Used(now, Bucket(key, k, day)) == Used(usage, Bucket(key, k, day)) {
      UsedAfterCharge(usage, payers, totals, day, Bucket(key, k, day));
    }
    assert both.Keys == next.Keys by {
      ChargedKeys(usage, payers + {key}, totals, day);
      ChargedKeys(usage, payers, totals, day);
      ChargedKeys(now, {key}, totals, day);
      BucketsJoin(payers, key, totals, day);
    }
    forall b | b in both ensures both[b] == next[b] {
      assert Used(both, b) == Used(next, b);
    }
    assert both == next;
  }

  lemma BucketsJoin(payers: set<string>, key: string, totals: map<string, nat>, day: int)
    ensures BucketsOf(payers + {key}, totals, day) == BucketsOf(payers, totals, day) + BucketsOf({key}, totals, day)
  {
  }

  lemma ChargedKeys(usage: map<Bucket, int>, payers: set<string>, totals: map<string, nat>, day: int)
    ensures ChargedUsage(usage, payers, totals, day).Keys == usage.Keys + BucketsOf(payers, totals, day)
  {
  }

  lemma OneMorePayer(ps: seq<KeyPolicy>, i: nat)
    requires DistinctKeys(ps) && i < |ps|
    ensures Payers(ps[..i + 1]) == Payers(ps[..i]) + {ps[i].apiKeyId} && ps[i].apiKeyId !in Payers(ps[..i])
  {
    assert ps[..i + 1] == ps[..i] + [ps[i]];
  }

  /** Charges every ancestor; nothing is kept when one of them refuses. */
  method ChargeAncestors(usage: map<Bucket, int>, ps: seq<KeyPolicy>, totals: map<string, nat>, day: int) returns (r: Option<map<Bucket, int>>)
    requires DistinctKeys(ps)
    ensures r.Some? <==> forall p | p in ps :: WithinDaily(usage, p, totals, day)
    ensures r.Some? ==> r.value == ChargedUsage(usage, Payers(ps), totals, day)
  {
    hide ChargedUsage, DistinctKeys, Payers, DailyOf;
    var now := usage;
    assert ChargedUsage(usage, Payers(ps[..0]), totals, day) == usage by { ChargeNobody(usage, totals, day); }
    for i := 0 to |ps|
      invariant forall j | 0 <= j < i :: WithinDaily(usage, ps[j], totals, day)
      invariant now == ChargedUsage(usage, Payers(ps[..i]), totals, day)
    {
      OneMorePayer(ps, i);
      ChargeAnotherPayer(usage, Payers(ps[..i]), ps[i].apiKeyId, totals, day);
      assert WithinDaily(now, ps[i], totals, day) <==> WithinDaily(usage, ps[i], totals, day);
      var charged := ChargeAncestor(now, ps[i], totals, day);
      if charged.None? {
        return None;
      }
      now := charged.value;
    }
    assert ps[..|ps|] == ps;
    r := Some(now);
  }

  lemma ChargeNobody(usage: map<Bucket, int>, totals: map<string, nat>, day: int)
    ensures ChargedUsage(usage, Payers([]), totals, day) == usage
  {
    assert Payers([]) == {} && BucketsOf({}, totals, day) == {};
  }

  // ----- the rows of an admission

  lemma OneMoreBudget(id: string, key: string, done: map<string, nat>, k: string, n: nat)
    ensures ChargedBudgets(id, {key}, done[k := n]) == ChargedBudgets(id, {key}, done)[BudgetId(id, key, k) := n]
  {
    hide ChargedBudgets;
    ChargedBudgetsAt(id, {key}, done);
    ChargedBudgetsAt(id, {key}, done[k := n]);
  }

  lemma BudgetsJoin(id: string, payers: set<string>, key: string, totals: map<string, nat>)
    ensures ChargedBudgets(id, payers + {key}, totals) == ChargedBudgets(id, payers, totals) + ChargedBudgets(id, {key}, totals)
  {
    hide ChargedBudgets;
    ChargedBudgetsAt(id, payers, totals);
    ChargedBudgetsAt(id, {key}, totals);
    ChargedBudgetsAt(id, payers + {key}, totals);
  }

  lemma NoBudgets(id: string, key: string, totals: map<string, nat>)
    ensures ChargedBudgets(id, {key}, map[]) == map[] && ChargedBudgets(id, Payers([]), totals) == map[]
  {
    hide ChargedBudgets;
    ChargedBudgetsAt(id, {key}, map[]);
    ChargedBudgetsAt(id, Payers([]), totals);
  }

  lemma PutLast<K, V>(a: map<K, V>, b: map<K, V>, k: K, v: V)
    ensures (a + b)[k := v] == a + b[k := v]
  {
  }

  lemma AddLast<K, V>(a: map<K, V>, b: map<K, V>, c: map<K, V>)
    ensures (a + b) + c == a + (b + c)
  {
  }

  /** The budget rows of one ancestor. */
  method WriteAncestorBudgets(budgets: map<BudgetId, nat>, id: string, key: string, totals: map<string, nat>) returns (r: map<BudgetId, nat>)
    ensures r == budgets + ChargedBudgets(id, {key}, totals)
  {
    hide ChargedBudgets, Payers;
    NoBudgets(id, key, totals);
    r := budgets;
    var rest := totals;
    ghost var done: map<string, nat> := map[];
    while rest != map[]
      invariant forall k | k in rest :: k in totals && rest[k] == totals[k] && k !in done
      invariant forall k | k in done :: k in totals && done[k] == totals[k]
      invariant forall k | k in totals :: k in rest || k in done
      invariant r == budgets + ChargedBudgets(id, {key}, done)
      decreases |rest|
    {
      var k :| k in rest;
      OneMoreBudget(id, key, done, k, rest[k]);
      PutLast(budgets, ChargedBudgets(id, {key}, done), BudgetId(id, key, k), rest[k]);
      r := r[BudgetId(id, key, k) := rest[k]];
      done := done[k := rest[k]];
      assert |rest - {k}| < |rest| by { assert (rest - {k}).Keys == rest.Keys - {k}; }
      rest := rest - {k};
    }
    assert done == totals;
  }

  method WriteBudgets(budgets: map<BudgetId, nat>, id: string, ps: seq<KeyPolicy>, totals: map<string, nat>) returns (r: map<BudgetId, nat>)
    ensures r == budgets + ChargedBudgets(id, Payers(ps), totals)
  {
    hide ChargedBudgets, Payers;
    NoBudgets(id, "", totals);
    r := budgets;
    for i := 0 to |ps|
      invariant r == budgets + ChargedBudgets(id, Payers(ps[..i]), totals)
    {
      PayersGrow(ps, i);
      BudgetsJoin(id, Payers(ps[..i]), ps[i].apiKeyId, totals);
      AddLast(budgets, ChargedBudgets(id, Payers(ps[..i]), totals), ChargedBudgets(id, {ps[i].apiKeyId}, totals));
      r := WriteAncestorBudgets(r, id, ps[i].apiKeyId, totals);
    }
    assert ps[..|ps|] == ps;
  }

  lemma PayersGrow(ps: seq<KeyPolicy>, i: nat)
    requires i < |ps|
    ensures Payers(ps[..i + 1]) == Payers(ps[..i]) + {ps[i].apiKeyId}
  {
    assert ps[..i + 1] == ps[..i] + [ps[i]];
  }

  lemma ChargedBudgetsAt(id: string, payers: set<string>, totals: map<string, nat>)
    ensures forall x :: x in ChargedBudgets(id, payers, totals) <==> x.admission == id && x.key in payers && x.rule in totals
    ensures forall x | x in ChargedBudgets(id, payers, totals) :: ChargedBudgets(id, payers, totals)[x] == totals[x.rule]
  {
    forall x: BudgetId | x.admission == id && x.key in payers && x.rule in totals ensures x in BudgetIdsOf(id, payers, totals) {
      assert x == BudgetId(id, x.key, x.rule);
    }
  }

  lemma FreshGrows(t: Tables, id: string, legs: seq<Leg>, i: nat)
    requires i < |legs| && Fresh(t, legs[..i])
    ensures var now := t.bindings + NewBindings(id, legs[..i]);
      Fresh(t, legs[..i + 1]) <==> legs[i].reference !in now && !TransactionBound(now, legs[i].transactionId)
  {
    hide NewBindings, KeyOf, AmountOf;
    var front, leg, added := legs[..i], legs[i], NewBindings(id, legs[..i]);
    var now := t.bindings + added;
    assert legs[..i + 1] == front + [leg];
    forall j | 0 <= j < i ensures front[j].reference in added && added[front[j].reference].transactionId == front[j].transactionId {
      NewBindingAt(id, front, j);
    }
    forall ref | ref in added ensures exists j | 0 <= j < i :: front[j].reference == ref && front[j].transactionId == added[ref].transactionId {
      var j := NewBindingFrom(id, front, ref);
    }
    if leg.reference !in now && !TransactionBound(now, leg.transactionId) {
      assert !TransactionBound(t.bindings, leg.transactionId) by { BoundStays(t.bindings, added, leg.transactionId); }
      forall j | 0 <= j < i ensures front[j].reference != leg.reference && front[j].transactionId != leg.transactionId {
        assert front[j].reference in now && now[front[j].reference].transactionId == front[j].transactionId;
      }
    }
    if Fresh(t, front + [leg]) {
      FreshLast(t, front, leg);
    }
  }

  lemma BoundStays(rows: map<string, Binding>, added: map<string, Binding>, id: string)
    requires forall ref | ref in added :: ref !in rows
    ensures TransactionBound(rows, id) ==> TransactionBound(rows + added, id)
  {
    if TransactionBound(rows, id) {
      var ref :| ref in rows && rows[ref].transactionId == id;
      assert (rows + added)[ref].transactionId == id;
    }
  }

  lemma FreshLast(t: Tables, front: seq<Leg>, leg: Leg)
    requires Fresh(t, front + [leg])
    ensures leg.reference !in t.bindings && !TransactionBound(t.bindings, leg.transactionId)
    ensures forall j | 0 <= j < |front| :: front[j].reference != leg.reference && front[j].transactionId != leg.transactionId
  {
    var all := front + [leg];
    assert all[|front|] == leg && forall j | 0 <= j < |front| :: all[j] == front[j];
  }

  lemma FreshPrefix(t: Tables, legs: seq<Leg>, n: nat)
    requires n <= |legs|
    ensures Fresh(t, legs) ==> Fresh(t, legs[..n])
  {
    hide TransactionBound;
  }

  lemma NewBindingsGrow(id: string, legs: seq<Leg>, i: nat)
    requires i < |legs|
    ensures NewBindings(id, legs[..0]) == map[]
    ensures NewBindings(id, legs[..i + 1]) == NewBindings(id, legs[..i])[legs[i].reference :=
      Binding(legs[i].transactionId, id, legs[i].source, legs[i].destination, KeyOf(legs[i]), AmountOf(legs[i]), 0)]
  {
    hide KeyOf, AmountOf;
    assert legs[..i + 1][..i] == legs[..i];
  }

  /** One binding per leg; a reference or transaction that is already bound refuses the admission. */
  method WriteBindings(t: Tables, id: string, legs: seq<Leg>) returns (r: Option<map<string, Binding>>)
    ensures r.Some? <==> Fresh(t, legs)
    ensures r.Some? ==> r.value == t.bindings + NewBindings(id, legs)
  {
    var now := t.bindings;
    assert Fresh(t, legs[..0]) && NewBindings(id, legs[..0]) == map[] by { NoLegsFresh(t); }
    hide KeyOf, AmountOf, Fresh, TransactionBound, NewBindings;
    for i := 0 to |legs|
      invariant now == t.bindings + NewBindings(id, legs[..i])
      invariant Fresh(t, legs[..i])
    {
      var leg := legs[i];
      FreshGrows(t, id, legs, i);
      if leg.reference in now || TransactionBound(now, leg.transactionId) {
        FreshPrefix(t, legs, i + 1);
        return None;
      }
      var binding := Binding(leg.transactionId, id, leg.source, leg.destination, KeyOf(leg), AmountOf(leg), 0);
      NewBindingsGrow(id, legs, i);
      PutLast(t.bindings, NewBindings(id, legs[..i]), leg.reference, binding);
      now := now[leg.reference := binding];
    }
    assert legs[..|legs|] == legs;
    r := Some(now);
  }

  lemma NoLegsFresh(t: Tables)
    ensures Fresh(t, [])
  {
  }

  // ----- a new admission

  lemma {:induction false} TotalFrom(legs: seq<Leg>, k: string) returns (leg: Leg)
    requires k in Totals(legs)
    ensures leg in legs && KeyOf(leg) == k
  {
    hide KeyOf, AmountOf;
    var last := legs[|legs| - 1];
    if KeyOf(last) == k {
      leg := last;
    } else {
      leg := TotalFrom(legs[..|legs| - 1], k);
    }
  }

  /** The policy in force asks of the totals what the ancestors ask of them. */
  lemma TotalsJudgedAlike(p: KeyPolicy, r: Request)
    requires Conjunction(p, r.policies) && forall leg | leg in r.legs :: Admits(p, leg)
    ensures forall k | k in Totals(r.legs) :: Within(MaxOf(p, k), Totals(r.legs)[k]) <==> AllWithinMax(r.policies, k, Totals(r.legs)[k])
    ensures forall k | k in Totals(r.legs) ::
      Within(ApprovalOf(p, k), Totals(r.legs)[k]) <==> AllBelowApproval(r.policies, k, Totals(r.legs)[k])
  {
    ConjunctionSays(p, r.policies);
    hide Conjunction, Find, AllWithinMax, AllBelowApproval, MaxOf, ApprovalOf, Within, KeyOf, AllowsParties, Totals;
    forall k | k in Totals(r.legs)
      ensures Within(MaxOf(p, k), Totals(r.legs)[k]) <==> AllWithinMax(r.policies, k, Totals(r.legs)[k])
      ensures Within(ApprovalOf(p, k), Totals(r.legs)[k]) <==> AllBelowApproval(r.policies, k, Totals(r.legs)[k])
    {
      var leg := TotalFrom(r.legs, k);
      assert Admits(p, leg);
    }
  }

  method AdmitNew(t: Tables, r: Request) returns (res: Result<Option<Tables>, PolicyError>)
    requires DistinctKeys(r.policies) && forall p | p in r.policies :: UniqueKeys(p.rules)
    ensures r.policies == [] ==> res == Ok(None)
    ensures r.policies != [] ==> (res.Ok? <==> Admissible(t, r))
    ensures r.policies != [] && res.Ok? ==> res.value == Some(Admitted(t, r))
  {
    hide Conjunction, UniqueKeys, DistinctKeys, Admits, AllAdmit, AllWithinMax, AllBelowApproval, MaxOf, ApprovalOf, Within,
      Totals, ChargedUsage, ChargedBudgets, NewBindings, Fresh, WithinDaily, Payers, Versions, Integer;
    var inForce := Intersect(r.key, r.policies);
    if inForce.None? {
      return Ok(None);
    }
    var p := inForce.value;
    if p.denyAll {
      assert r.legs != [] ==> r.legs[0] in r.legs;
      return Err(Denied);
    }
    ConjunctionSays(p, r.policies);
    var sums := AddUpLegs(p, r.legs);
    if sums.Err? {
      return Err(sums.error);
    }
    if |r.legs| == 0 {
      return Err(NoLegs);
    }
    TotalsJudgedAlike(p, r);
    var allowed, decision := CheckTotals(p, sums.value);
    if !allowed {
      return Err(Denied);
    }
    var usage := ChargeAncestors(t.usage, r.policies, sums.value, r.day);
    if usage.None? {
      return Err(Denied);
    }
    if r.id in t.admissions {
      return Err(AlreadyAdmitted);
    }
    var admission := Admission(r.key, r.identity, p.version, r.day, r.fingerprint, decision, Nobody, r.legs);
    var budgets := WriteBudgets(t.budgets, r.id, r.policies, sums.value);
    var bindings := WriteBindings(t, r.id, r.legs);
    if bindings.None? {
      return Err(AlreadyAdmitted);
    }
    assert decision == DecisionFor(r);
    res := Ok(Some(Tables(usage.value, t.admissions[r.id := admission], budgets, bindings.value)));
  }

  // ----- replays

  /** The legs without their transaction IDs, which is what the fingerprint covers. */
  function Blanked(legs: seq<Leg>): seq<Leg>
  {
    seq(|legs|, i requires 0 <= i < |legs| => legs[i].(transactionId := ""))
  }

  /** A stored admission is handed out again only for the same legs, and not once it is spent. */
  ghost function Replayed(t: Tables, a: string, fingerprint: string): Result<Option<string>, PolicyError>
    requires a in t.admissions
  {
    if t.admissions[a].fingerprint != fingerprint then Err(IdentityConflict)
    else if Spent(t, a) then Err(Denied)
    else Ok(Some(a))
  }

  /** A replay answers from the stored admission; anything else is admitted or refused as a whole. */
  ghost predicate AdmitOutcome(keys: Delegation.Keys, t: Tables, request: Request, after: Tables, r: Result<Option<string>, PolicyError>)
  {
    && after == Step(keys, t, Admit(request))
    && (forall a | Recorded(t, request.key, request.identity, a) :: r == Replayed(t, a, request.fingerprint))
    && ((forall a :: !Recorded(t, request.key, request.identity, a)) ==>
          if request.policies == [] then r == Ok(None)
          else if Admissible(t, request) then r == Ok(Some(request.id))
          else r.Err?)
  }

  method ReplayOrAdmit(ghost keys: Delegation.Keys, t: Tables, request: Request) returns (after: Tables, r: Result<Option<string>, PolicyError>)
    requires OncePerIdentity(t) && DistinctKeys(request.policies) && forall p | p in request.policies :: UniqueKeys(p.rules)
    ensures AdmitOutcome(keys, t, request, after, r)
  {
    hide DistinctKeys, UniqueKeys, Admissible, Admitted;
    after := t;
    if a :| a in t.admissions && t.admissions[a].apiKeyId == request.key && t.admissions[a].identity == request.identity {
      assert Recorded(t, request.key, request.identity, a);
      if t.admissions[a].fingerprint != request.fingerprint {
        return after, Err(IdentityConflict);
      }
      if t.admissions[a].decision == Rejected {
        return after, Err(Denied);
      }
      if exists ref | ref in t.bindings :: t.bindings[ref].admission == a && t.bindings[ref].released > 0 {
        return after, Err(Denied);
      }
      return after, Ok(Some(a));
    }
    var admitted := AdmitNew(t, request);
    if admitted.Err? {
      return after, Err(admitted.error);
    }
    if admitted.value.None? {
      return after, Ok(None);
    }
    after, r := admitted.value.value, Ok(Some(request.id));
  }

  // ----- the ancestors' policies

  function Collected(policies: map<string, KeyPolicy>, ids: seq<string>): seq<KeyPolicy>
  {
    if ids == [] then []
    else
      var before, id := Collected(policies, ids[..|ids| - 1]), ids[|ids| - 1];
      if id in policies then before + [policies[id].(apiKeyId := id)] else before
  }

  lemma {:induction false} CollectedFrom(policies: map<string, KeyPolicy>, ids: seq<string>, i: nat) returns (j: nat)
    requires i < |Collected(policies, ids)|
    ensures j < |ids| && ids[j] in policies && Collected(policies, ids)[i] == policies[ids[j]].(apiKeyId := ids[j])
  {
    var last := |ids| - 1;
    if i < |Collected(policies, ids[..last])| {
      j := CollectedFrom(policies, ids[..last], i);
    } else {
      j := last;
    }
  }

  lemma {:induction false} CollectedDistinct(policies: map<string, KeyPolicy>, ids: seq<string>)
    requires forall i, j | 0 <= i < j < |ids| :: ids[i] != ids[j]
    ensures DistinctKeys(Collected(policies, ids))
  {
    if ids != [] {
      var last := |ids| - 1;
      CollectedDistinct(policies, ids[..last]);
      var before := Collected(policies, ids[..last]);
      forall i | 0 <= i < |before| ensures before[i].apiKeyId != ids[last] {
        var j := CollectedFrom(policies, ids[..last], i);
      }
    }
  }

  lemma CollectedUnique(policies: map<string, KeyPolicy>, ids: seq<string>)
    requires forall k | k in policies :: UniqueKeys(policies[k].rules)
    ensures forall p | p in Collected(policies, ids) :: UniqueKeys(p.rules)
  {
    hide UniqueKeys;
    forall p | p in Collected(policies, ids) ensures UniqueKeys(p.rules) {
      var i :| 0 <= i < |Collected(policies, ids)| && Collected(policies, ids)[i] == p;
      var j := CollectedFrom(policies, ids, i);
    }
  }

  // ----- finding the binding of a transaction

  function Upward(parents: map<string, string>, id: string): Option<string>
  {
    if id in parents && parents[id] != "" && parents[id] != id then Some(parents[id]) else None
  }

  const MAX_ANCESTORS := 17

  /** The binding of the transaction itself or of its nearest bound ancestor among the first n. */
  ghost function Nearest(parents: map<string, string>, bindings: map<string, Binding>, id: string, n: nat): (r: Option<string>)
    ensures r.Some? ==> r.value in bindings
    decreases n
  {
    if n == 0 then None
    else if TransactionBound(bindings, id) then
      var ref :| ref in bindings && bindings[ref].transactionId == id;
      Some(ref)
    else if Upward(parents, id).None? then None
    else Nearest(parents, bindings, Upward(parents, id).value, n - 1)
  }

  method FindReference(parents: map<string, string>, bindings: map<string, Binding>, id: string) returns (r: Option<string>)
    requires UniqueTransactions(bindings)
    ensures r == Nearest(parents, bindings, id, MAX_ANCESTORS)
  {
    hide Nearest;
    var at := id;
    for depth := 0 to MAX_ANCESTORS
      invariant Nearest(parents, bindings, id, MAX_ANCESTORS) == Nearest(parents, bindings, at, MAX_ANCESTORS - depth)
    {
      NearestStep(parents, bindings, at, MAX_ANCESTORS - depth);
      if ref :| ref in bindings && bindings[ref].transactionId == at {
        return Some(ref);
      }
      var up := Upward(parents, at);
      if up.None? {
        return None;
      }
      at := up.value;
    }
    NearestStep(parents, bindings, at, 0);
    r := None;
  }

  lemma NearestStep(parents: map<string, string>, bindings: map<string, Binding>, id: string, n: nat)
    requires UniqueTransactions(bindings)
    ensures n == 0 ==> Nearest(parents, bindings, id, n) == None
    ensures n > 0 ==> forall ref | ref in bindings && bindings[ref].transactionId == id :: Nearest(parents, bindings, id, n) == Some(ref)
    ensures n > 0 && !TransactionBound(bindings, id) ==>
      (Nearest(parents, bindings, id, n) == if Upward(parents, id).None? then None else Nearest(parents, bindings, Upward(parents, id).value, n - 1))
  {
  }

  /** Usage after delta went back to the given budget rows of one day. */
  ghost function Refunded(usage: map<Bucket, int>, day: int, rows: set<BudgetId>, a: string, rule: string, delta: int): map<Bucket, int>
  {
    map b | b in usage :: usage[b] - if b.rule == rule && b.day == day && BudgetId(a, b.key, rule) in rows then delta else 0
  }

  lemma RefundOne(usage: map<Bucket, int>, day: int, rows: set<BudgetId>, x: BudgetId, delta: int)
    requires x !in rows
    ensures
      var b, now := Bucket(x.key, x.rule, day), Refunded(usage, day, rows, x.admission, x.rule, delta);
      Refunded(usage, day, rows + {x}, x.admission, x.rule, delta) == if b in now then now[b := now[b] - delta] else now
  {
    assert BudgetId(x.admission, x.key, x.rule) == x;
  }

  lemma RefundAll(t: Tables, rows: set<BudgetId>, a: string, rule: string, delta: int)
    requires a in t.admissions
    requires forall x :: x in rows <==> x in t.budgets && x.admission == a && x.rule == rule
    ensures Refunded(t.usage, t.admissions[a].day, rows, a, rule, delta) == ReleasedUsage(t, a, rule, delta)
    ensures Refunded(t.usage, t.admissions[a].day, {}, a, rule, delta) == t.usage
  {
  }

  /** Gives delta back to every budget the admission charged under the rule. */
  method ReturnToBudgets(t: Tables, a: string, rule: string, delta: int) returns (usage: map<Bucket, int>)
    requires a in t.admissions
    ensures usage == ReleasedUsage(t, a, rule, delta)
  {
    hide Refunded, ReleasedUsage;
    usage := t.usage;
    var day := t.admissions[a].day;
    var rows := set x | x in t.budgets && x.admission == a && x.rule == rule;
    var rest := rows;
    RefundAll(t, rows, a, rule, delta);
    ghost var done: set<BudgetId> := {};
    while rest != {}
      invariant rest <= rows && done == rows - rest
      invariant usage == Refunded(t.usage, day, done, a, rule, delta)
      decreases |rest|
    {
      var x :| x in rest;
      var b := Bucket(x.key, x.rule, day);
      RefundOne(t.usage, day, done, x, delta);
      if b in usage {
        usage := usage[b := usage[b] - delta];
      }
      rest := rest - {x};
      done := done + {x};
    }
    assert done == rows;
  }

  method ReleaseOn(ghost keys: Delegation.Keys, t: Tables, ref: string, unused: nat, posted: bool) returns (after: Tables)
    requires BindingsSound(t) && ref in t.bindings && unused <= t.bindings[ref].amount
    ensures after == Step(keys, t, Release(ref, unused, posted)) && after.budgets == t.budgets
  {
    hide ReleasedUsage;
    var x := t.bindings[ref];
    after := t;
    if unused > x.released {
      var usage := ReturnToBudgets(t, x.admission, x.rule, unused - x.released);
      after := t.(usage := usage, bindings := t.bindings[ref := x.(released := unused)]);
    } else if !posted {
      return;
    }
    var a := x.admission;
    if after.admissions[a].decision == Pending &&
       !exists y | y in after.bindings :: after.bindings[y].admission == a && after.bindings[y].released < after.bindings[y].amount {
      after := after.(admissions := after.admissions[a := after.admissions[a].(decision := Rejected, decidedBy := System)]);
    }
  }

  // ----- capacity

  function Spare(usage: map<Bucket, int>, p: KeyPolicy, k: string, day: int): Option<nat>
  {
    match DailyOf(p, k)
    case None => None
    case Some(limit) => Some(Max(0, limit - Used(usage, Bucket(p.apiKeyId, k, day))))
  }

  /** The least any ancestor has to spare. */
  function Remaining(usage: map<Bucket, int>, ps: seq<KeyPolicy>, k: string, day: int): Option<nat>
  {
    if ps == [] then None
    else Minimum(Remaining(usage, ps[..|ps| - 1], k, day), Spare(usage, ps[|ps| - 1], k, day))
  }

  lemma {:induction false} RemainingWithin(usage: map<Bucket, int>, ps: seq<KeyPolicy>, k: string, day: int, n: nat)
    ensures Within(Remaining(usage, ps, k, day), n) <==> forall p | p in ps :: Within(Spare(usage, p, k, day), n)
  {
    hide Spare, Within;
    if ps == [] {
      assert Within(None, n) by { WithinNothing(n); }
    } else {
      var front, last := ps[..|ps| - 1], ps[|ps| - 1];
      assert ps == front + [last];
      RemainingWithin(usage, front, k, day, n);
    }
  }

  lemma WithinNothing(n: int)
    ensures Within(None, n)
  {
  }

  /** Some ancestor has used more than its limit, and so refuses even a total of zero. */
  ghost predicate Overdrawn(usage: map<Bucket, int>, ps: seq<KeyPolicy>, k: string, day: int)
  {
    exists p | p in ps :: !WithinDaily(usage, p, map[k := 0], day)
  }

  lemma OneTotal(usage: map<Bucket, int>, p: KeyPolicy, k: string, day: int, n: nat)
    ensures WithinDaily(usage, p, map[k := n], day) <==> Within(DailyOf(p, k), Used(usage, Bucket(p.apiKeyId, k, day)) + n)
  {
    hide DailyOf, Used;
    assert map[k := n][k] == n;
  }

  lemma SpareWithin(usage: map<Bucket, int>, p: KeyPolicy, k: string, day: int, n: nat)
    ensures n > 0 ==> (Within(Spare(usage, p, k, day), n) <==> WithinDaily(usage, p, map[k := n], day))
    ensures n == 0 ==> Within(Spare(usage, p, k, day), n)
  {
    hide DailyOf, Used, WithinDaily;
    OneTotal(usage, p, k, day, n);
  }

  /** The reported capacity agrees with admission on a total of one rule exactly when the total is
      positive or no ancestor has used more than its limit. */
  lemma CapacityAgrees(usage: map<Bucket, int>, ps: seq<KeyPolicy>, k: string, day: int, n: nat)
    ensures (Within(Remaining(usage, ps, k, day), n) <==> forall p | p in ps :: WithinDaily(usage, p, map[k := n], day)) <==>
            n > 0 || !Overdrawn(usage, ps, k, day)
  {
    hide Remaining, Within, Spare, WithinDaily;
    RemainingWithin(usage, ps, k, day, n);
    forall p | p in ps
      ensures n > 0 ==> (Within(Spare(usage, p, k, day), n) <==> WithinDaily(usage, p, map[k := n], day))
      ensures n == 0 ==> Within(Spare(usage, p, k, day), n)
    {
      SpareWithin(usage, p, k, day, n);
    }
  }

  /** A request that only the daily limits could refuse. */
  ghost predicate OnlyDailyMatters(t: Tables, r: Request)
  {
    var totals := Totals(r.legs);
    && r.legs != []
    && (forall leg | leg in r.legs :: Integer(leg.amount).Some? && AllAdmit(r.policies, leg))
    && (forall k | k in totals :: AllWithinMax(r.policies, k, totals[k]))
    && r.id !in t.admissions && Fresh(t, r.legs)
  }

  /** Such a request with a total of one rule is admitted exactly when the total is within the
      remaining capacity and is positive or finds no ancestor over its limit. */
  lemma CapacityDecides(t: Tables, r: Request, k: string, n: nat)
    requires OnlyDailyMatters(t, r) && Totals(r.legs) == map[k := n]
    ensures Admissible(t, r) <==>
            Within(Remaining(t.usage, r.policies, k, r.day), n) && (n > 0 || !Overdrawn(t.usage, r.policies, k, r.day))
  {
    hide Totals, AllAdmit, AllWithinMax, Fresh, Integer, Remaining, WithinDaily, Within;
    CapacityAgrees(t.usage, r.policies, k, r.day, n);
    if n == 0 {
      NothingRemains(t.usage, r.policies, k, r.day);
    }
  }

  lemma NothingRemains(usage: map<Bucket, int>, ps: seq<KeyPolicy>, k: string, day: int)
    ensures Within(Remaining(usage, ps, k, day), 0)
  {
  }

  // ----- a reachable refusal that the reported capacity does not foresee

  function Limited(limit: nat): KeyPolicy
  {
    KeyPolicy("key", 1, [Rule("USD", 100, None, Some(limit), None)], [], [], false, [])
  }

  function SixUnits(): Request
  {
    Request("key", "order", [Leg("t", "r", "a", "b", "l", "l", "USD", 100, "6")], [Limited(10)], 0, "adm", "print")
  }

  lemma LimitOf(limit: nat)
    ensures DailyOf(Limited(limit), RuleKey("USD", 100)) == Some(limit)
    ensures MaxOf(Limited(limit), RuleKey("USD", 100)) == None && Find(Limited(limit).rules, RuleKey("USD", 100)).Some?
  {
    hide RuleKey;
    assert Limited(limit).rules[..0] == [];
  }

  lemma SixIsInteger()
    ensures Integer("6") == Some(6)
  {
    IntegerRoundTrip(6, "6");
    assert Decimals.Digits(6) == "6";
  }

  lemma SixTotals()
    ensures Totals(SixUnits().legs) == map[RuleKey("USD", 100) := 6]
  {
    hide RuleKey, Integer;
    SixIsInteger();
    assert SixUnits().legs[..0] == [];
  }

  lemma SixAdmissible()
    ensures Admissible(EMPTY, SixUnits())
  {
    var r, k := SixUnits(), RuleKey("USD", 100);
    hide RuleKey, Integer, Totals, DailyOf, MaxOf, Find;
    SixTotals();
    SixIsInteger();
    LimitOf(10);
    assert forall p | p in r.policies :: p == Limited(10);
    assert WithinDaily(EMPTY.usage, Limited(10), map[k := 6], 0) by { OneTotal(EMPTY.usage, Limited(10), k, 0, 6); }
    assert AllAdmit(r.policies, r.legs[0]);
  }

  lemma SixAdmitted(keys: Delegation.Keys)
    ensures Run(keys, EMPTY, [Admit(SixUnits())]) == Admitted(EMPTY, SixUnits())
  {
    hide Admissible, Admitted;
    SixAdmissible();
    assert [Admit(SixUnits())][..0] == [];
    assert Run(keys, EMPTY, []) == EMPTY;
    assert forall a :: !Recorded(EMPTY, "key", "order", a);
  }

  lemma SixUsed()
    ensures Used(Admitted(EMPTY, SixUnits()).usage, Bucket("key", RuleKey("USD", 100), 0)) == 6
  {
    hide RuleKey, Totals, ChargedUsage, NewBindings, ChargedBudgets, Payers, DecisionFor, Versions;
    var r, b := SixUnits(), Bucket("key", RuleKey("USD", 100), 0);
    SixTotals();
    OnePayer();
    UsedAfterCharge(EMPTY.usage, Payers(r.policies), Totals(r.legs), 0, b);
  }

  /** A request for nothing, under a limit that has been lowered. */
  function NoUnits(): Request
  {
    Request("key", "next", [Leg("u", "s", "a", "b", "l", "l", "USD", 100, "0")], [Limited(5)], 0, "adn", "other")
  }

  lemma ZeroIsInteger()
    ensures Integer("0") == Some(0)
  {
    IntegerRoundTrip(0, "0");
    assert Decimals.Digits(0) == "0";
  }

  lemma ZeroTotals()
    ensures Totals(NoUnits().legs) == map[RuleKey("USD", 100) := 0]
  {
    hide RuleKey, Integer;
    ZeroIsInteger();
    assert NoUnits().legs[..0] == [];
  }

  lemma OneBinding()
    ensures var t := Admitted(EMPTY, SixUnits());
      t.bindings.Keys == {"r"} && t.bindings["r"].transactionId == "t" && t.admissions.Keys == {"adm"}
  {
    hide ChargedUsage, ChargedBudgets, Totals, DecisionFor, Versions, RuleKey, Integer;
    assert SixUnits().legs[..0] == [];
  }

  lemma OnlyTheLimit()
    ensures OnlyDailyMatters(Admitted(EMPTY, SixUnits()), NoUnits())
  {
    hide RuleKey, Integer, Totals, DailyOf, MaxOf, Find, Admitted;
    var r := NoUnits();
    ZeroTotals();
    ZeroIsInteger();
    LimitOf(5);
    OneBinding();
    assert forall p | p in r.policies :: p == Limited(5);
    assert AllAdmit(r.policies, r.legs[0]);
  }

  lemma AboveFive(usage: map<Bucket, int>, k: string)
    requires k == RuleKey("USD", 100) && Used(usage, Bucket("key", k, 0)) == 6
    ensures Remaining(usage, [Limited(5)], k, 0) == Some(0) && Overdrawn(usage, [Limited(5)], k, 0)
  {
    hide RuleKey, DailyOf, WithinDaily, Used;
    LimitOf(5);
    OneTotal(usage, Limited(5), k, 0, 0);
    assert [Limited(5)][..0] == [] && Limited(5) in [Limited(5)];
    assert Remaining(usage, [], k, 0) == None;
  }

  lemma ForNothing()
    ensures NoUnits().policies == [Limited(5)] && NoUnits().day == 0
  {
  }

  /** Six units are admitted under a limit of ten; the limit is then lowered to five. Zero remains,
      yet a request for zero units that nothing else could refuse is refused. */
  lemma ZeroTotalRefused(keys: Delegation.Keys)
    ensures
      var t, k := Run(keys, EMPTY, [Admit(SixUnits())]), RuleKey("USD", 100);
      && Totals(NoUnits().legs) == map[k := 0] && OnlyDailyMatters(t, NoUnits())
      && Remaining(t.usage, NoUnits().policies, k, NoUnits().day) == Some(0)
      && !Admissible(t, NoUnits()) && Step(keys, t, Admit(NoUnits())) == t
  {
    hide *;
    var t, k := Run(keys, EMPTY, [Admit(SixUnits())]), RuleKey("USD", 100);
    SixAdmitted(keys);
    SixUsed();
    AboveFive(t.usage, k);
    OnlyTheLimit();
    ZeroTotals();
    ForNothing();
    CapacityDecides(t, NoUnits(), k, 0);
    RefusedChangesNothing(keys, t, NoUnits());
  }

  lemma RefusedChangesNothing(keys: Delegation.Keys, t: Tables, r: Request)
    requires !Admissible(t, r)
    ensures Step(keys, t, Admit(r)) == t
  {
    hide Admissible, Admitted;
  }

  lemma OnePayer()
    ensures "key" in Payers(SixUnits().policies)
  {
    assert Limited(10) in SixUnits().policies && Limited(10).apiKeyId == "key";
  }

  datatype BudgetCapacity = BudgetCapacity(apiKeyId: string, used: int, limit: Option<nat>)

  datatype Capacity = Capacity(budgets: seq<BudgetCapacity>, currency: string, precision: nat, used: int, remaining: Option<nat>)

  /** The first policy with the smallest daily limit. */
  ghost predicate Narrowest(ps: seq<KeyPolicy>, k: string, i: nat)
    requires i < |ps|
  {
    && DailyOf(ps[i], k).Some?
    && (forall j | 0 <= j < |ps| && DailyOf(ps[j], k).Some? ::
          DailyOf(ps[i], k).value < DailyOf(ps[j], k).value || (DailyOf(ps[i], k).value == DailyOf(ps[j], k).value && i <= j))
  }

  ghost predicate NoLimit(ps: seq<KeyPolicy>, k: string)
  {
    forall j | 0 <= j < |ps| :: DailyOf(ps[j], k).None?
  }

  /** Which policy is the narrowest when one more is looked at. */
  lemma NarrowestGrows(ps: seq<KeyPolicy>, k: string, p: KeyPolicy, first: nat)
    ensures NoLimit(ps + [p], k) <==> NoLimit(ps, k) && DailyOf(p, k).None?
    ensures NoLimit(ps, k) && DailyOf(p, k).Some? ==> Narrowest(ps + [p], k, |ps|)
    ensures first < |ps| && Narrowest(ps, k, first) ==>
      Narrowest(ps + [p], k, if DailyOf(p, k).Some? && DailyOf(p, k).value < DailyOf(ps[first], k).value then |ps| else first)
  {
    hide DailyOf;
    var all := ps + [p];
    assert all[|ps|] == p && forall j | 0 <= j < |ps| :: all[j] == ps[j];
  }

  lemma NarrowestIsUnique(ps: seq<KeyPolicy>, k: string, first: nat)
    ensures NoLimit(ps, k) ==> forall i | 0 <= i < |ps| :: !Narrowest(ps, k, i)
    ensures first < |ps| && Narrowest(ps, k, first) ==> !NoLimit(ps, k)
    ensures first < |ps| && Narrowest(ps, k, first) ==> forall i | 0 <= i < |ps| && Narrowest(ps, k, i) :: i == first
  {
    hide DailyOf;
  }

  /** The reported usage is that of the first ancestor with the smallest limit; without any limit it
      is that of the last ancestor. */
  ghost predicate ReportsUse(usage: map<Bucket, int>, ps: seq<KeyPolicy>, k: string, day: int, used: int)
  {
    && (forall i | 0 <= i < |ps| && Narrowest(ps, k, i) :: used == Used(usage, Bucket(ps[i].apiKeyId, k, day)))
    && (NoLimit(ps, k) ==> used == if ps == [] then 0 else Used(usage, Bucket(ps[|ps| - 1].apiKeyId, k, day)))
  }

  /** One line per ancestor, in order: what it has used of the rule and its own limit. */
  ghost predicate ListsBudgets(usage: map<Bucket, int>, ps: seq<KeyPolicy>, k: string, day: int, budgets: seq<BudgetCapacity>)
  {
    && |budgets| == |ps|
    && forall i | 0 <= i < |ps| ::
         budgets[i] == BudgetCapacity(ps[i].apiKeyId, Used(usage, Bucket(ps[i].apiKeyId, k, day)), DailyOf(ps[i], k))
  }

  method CapacityOf(usage: map<Bucket, int>, ps: seq<KeyPolicy>, k: string, day: int)
    returns (budgets: seq<BudgetCapacity>, used: int, remaining: Option<nat>)
    ensures remaining == Remaining(usage, ps, k, day) && ReportsUse(usage, ps, k, day, used)
    ensures ListsBudgets(usage, ps, k, day, budgets)
  {
    hide DailyOf, Narrowest, NoLimit, Used, ListsBudgets, ReportsUse, Remaining;
    budgets, used, remaining := [], 0, None;
    var primary: Option<nat> := None;
    ghost var first := 0;
    assert ps[..0] == [];
    NobodyLimits(usage, k, day);
    for i := 0 to |ps|
      invariant remaining == Remaining(usage, ps[..i], k, day)
      invariant ListsBudgets(usage, ps[..i], k, day, budgets)
      invariant primary.None? ==> NoLimit(ps[..i], k)
      invariant primary.None? ==> used == if i == 0 then 0 else Used(usage, Bucket(ps[i - 1].apiKeyId, k, day))
      invariant primary.Some? ==> first < i && Narrowest(ps[..i], k, first) && DailyOf(ps[first], k) == primary
      invariant primary.Some? ==> used == Used(usage, Bucket(ps[first].apiKeyId, k, day))
    {
      assert ps[..i + 1] == ps[..i] + [ps[i]];
      OneMoreLine(usage, ps[..i], ps[i], k, day, budgets);
      NarrowestGrows(ps[..i], k, ps[i], first);
      var own, spent := DailyOf(ps[i], k), Used(usage, Bucket(ps[i].apiKeyId, k, day));
      budgets := budgets + [BudgetCapacity(ps[i].apiKeyId, spent, own)];
      if primary.None? {
        used := spent;
      }
      if own.None? {
        continue;
      }
      if primary.None? || own.value < primary.value {
        used, primary, first := spent, own, i;
      }
      var limit := own.value - spent;
      if limit < 0 {
        limit := 0;
      }
      if remaining.None? || limit < remaining.value {
        remaining := Some(limit);
      }
    }
    assert ps[..|ps|] == ps;
    UseReported(usage, ps, k, day, first, used);
  }

  lemma UseReported(usage: map<Bucket, int>, ps: seq<KeyPolicy>, k: string, day: int, first: nat, used: int)
    requires
      || (first < |ps| && Narrowest(ps, k, first) && used == Used(usage, Bucket(ps[first].apiKeyId, k, day)))
      || (NoLimit(ps, k) && used == if ps == [] then 0 else Used(usage, Bucket(ps[|ps| - 1].apiKeyId, k, day)))
    ensures ReportsUse(usage, ps, k, day, used)
  {
    hide DailyOf, Used, Narrowest, NoLimit;
    NarrowestIsUnique(ps, k, first);
  }

  lemma OneMoreLine(usage: map<Bucket, int>, ps: seq<KeyPolicy>, p: KeyPolicy, k: string, day: int, budgets: seq<BudgetCapacity>)
    requires ListsBudgets(usage, ps, k, day, budgets)
    ensures ListsBudgets(usage, ps + [p], k, day,
                         budgets + [BudgetCapacity(p.apiKeyId, Used(usage, Bucket(p.apiKeyId, k, day)), DailyOf(p, k))])
    ensures Remaining(usage, ps + [p], k, day) == Minimum(Remaining(usage, ps, k, day), Spare(usage, p, k, day))
  {
    hide DailyOf, Used, Spare;
    assert (ps + [p])[..|ps|] == ps;
  }

  lemma NobodyLimits(usage: map<Bucket, int>, k: string, day: int)
    ensures NoLimit([], k) && Remaining(usage, [], k, day) == None && ListsBudgets(usage, [], k, day, [])
  {
  }

  // ----- the store

  class Datasource {
    var keys: Delegation.Keys
    var policies: map<string, KeyPolicy>
    var journal: Journal
    var usage: map<Bucket, int>
    var admissions: map<string, Admission>
    var budgets: map<BudgetId, nat>
    var bindings: map<string, Binding>

    function View(): Tables
      reads this
    {
      Tables(usage, admissions, budgets, bindings)
    }

    /** Stored policies were validated: no two rules of one have the same key. */
    ghost predicate Valid()
      reads this
    {
      Inv(View()) && forall k | k in policies :: UniqueKeys(policies[k].rules)
    }

    method AncestorPolicies(ids: seq<string>) returns (ps: seq<KeyPolicy>)
      ensures ps == Collected(policies, ids)
    {
      ps := [];
      for i := 0 to |ids|
        invariant ps == Collected(policies, ids[..i])
      {
        assert ids[..i + 1][..i] == ids[..i];
        if ids[i] in policies {
          ps := ps + [policies[ids[i]].(apiKeyId := ids[i])];
        }
      }
      assert ids[..|ids|] == ids;
    }

    ghost function RequestOf(key: string, identity: string, legs: seq<Leg>, day: int, newId: string, fingerprint: string): Request
      requires Delegation.WithinDepth(keys, key)
      reads this
    {
      Request(key, identity, legs, Collected(policies, Delegation.Ancestry(keys, key)), day, newId, fingerprint)
    }

    method AdmitPolicy(key: string, identity: string, legs: seq<Leg>, day: int, newId: string, fingerprintOf: seq<Leg> -> string)
      returns (r: Result<Option<string>, PolicyError>)
      requires Valid()
      modifies this`usage, this`admissions, this`budgets, this`bindings
      ensures Valid()
      ensures !Delegation.WithinDepth(keys, key) ==> r == Err(Denied) && View() == old(View())
      ensures Delegation.WithinDepth(keys, key) ==>
        AdmitOutcome(keys, old(View()), RequestOf(key, identity, legs, day, newId, fingerprintOf(Blanked(legs))), View(), r)
    {
      hide UniqueKeys, DistinctKeys, AdmitOutcome, Delegation.WithinDepth, Delegation.Ancestry, Delegation.PathToRoot, Collected, Blanked;
      var ids := Delegation.KeyAncestry(keys, key);
      if ids.None? {
        return Err(Denied);
      }
      Delegation.PathIsUnique(keys, key, ids.value, Delegation.Ancestry(keys, key));
      Delegation.PathNeverRepeats(keys, key, ids.value);
      var ps := AncestorPolicies(ids.value);
      CollectedDistinct(policies, ids.value);
      CollectedUnique(policies, ids.value);
      var request := Request(key, identity, legs, ps, day, newId, fingerprintOf(Blanked(legs)));
      var after;
      after, r := ReplayOrAdmit(keys, View(), request);
      OutcomeKeeps(keys, View(), request, after, r);
      usage, admissions, budgets, bindings := after.usage, after.admissions, after.budgets, after.bindings;
    }

    /** The binding that a transaction's policy checks fall under, if any. */
    ghost function ReferenceOf(id: string): Option<string>
      reads this
    {
      Nearest(Parents(journal), bindings, id, MAX_ANCESTORS)
    }

    /** Fallback release after a void or failure. */
    method ReleasePolicyLeg(id: string)
      requires Valid()
      modifies this`usage, this`admissions, this`bindings
      ensures Valid()
      ensures
        var ref := old(ReferenceOf(id));
        View() == if ref.None? then old(View())
                  else Step(keys, old(View()), Release(ref.value, Releasable(journal, old(bindings), ref.value), false))
    {
      ReleaseBound(id, false);
    }

    /** The same release, run by the database when a row was inserted, if that row is terminal. */
    method ReleaseTerminalReservation(id: string)
      requires Valid() && id in journal
      modifies this`usage, this`admissions, this`bindings
      ensures Valid()
      ensures
        var ref := old(ReferenceOf(id));
        View() == if ref.None? || journal[id].status !in {"VOID", "REJECTED"} then old(View())
                  else Step(keys, old(View()), Release(ref.value, Releasable(journal, old(bindings), ref.value), true))
    {
      if journal[id].status != "VOID" && journal[id].status != "REJECTED" {
        return;
      }
      ReleaseBound(id, true);
    }

    method ReleaseBound(id: string, posted: bool)
      requires Valid()
      modifies this`usage, this`admissions, this`bindings
      ensures Valid()
      ensures
        var ref := old(ReferenceOf(id));
        View() == if ref.None? then old(View())
                  else Step(keys, old(View()), Release(ref.value, Releasable(journal, old(bindings), ref.value), posted))
    {
      hide Inv, UniqueKeys, Nearest, Step, Releasable;
      InvSays(View());
      var ref := FindReference(Parents(journal), bindings, id);
      if ref.None? {
        return;
      }
      var unused := ReleasableCapacity(journal, bindings, ref.value);
      StepKeeps(keys, View(), Release(ref.value, unused, posted));
      var after := ReleaseOn(keys, View(), ref.value, unused, posted);
      usage, admissions, bindings := after.usage, after.admissions, after.bindings;
    }

    method DecidePolicyApproval(id: string, p: Principal, approve: bool) returns (r: Result<Admission, PolicyError>)
      requires Valid()
      modifies this`admissions
      ensures Valid() && View() == Step(keys, old(View()), Decide(id, p, approve))
      ensures r.Ok? <==> MayDecide(keys, old(View()), id, p) && old(admissions)[id].decision in {Pending, Verdict(approve)}
      ensures r.Ok? ==> r.value == admissions[id] && r.value.decision == Verdict(approve)
      ensures !CanApprove(p) ==> r == Err(Denied)
    {
      hide Inv, UniqueKeys, Delegation.Independent;
      if !CanApprove(p) {
        return Err(Denied);
      }
      if id !in admissions {
        return Err(NotFound);
      }
      var a := admissions[id];
      var independent := Delegation.IndependentApprover(keys, a.apiKeyId, p.apiKeyId, p.master);
      if !independent {
        return Err(Denied);
      }
      var decision := Verdict(approve);
      if a.decision == decision {
        return Ok(a);
      }
      if a.decision != Pending {
        return Err(DecisionFinal);
      }
      DecisionKeeps(View(), id, decision, Actor(p));
      a := a.(decision := decision, decidedBy := Actor(p));
      admissions := admissions[id := a];
      r := Ok(a);
    }

    /** A bound posting may commit only when its admission needs no approval or has one. */
    method CheckPolicyCommit(id: string) returns (allowed: bool)
      requires Valid()
      ensures
        var ref := ReferenceOf(id);
        allowed <==> ref.None? || admissions[bindings[ref.value].admission].decision in {Approved, NotRequired}
    {
      hide BudgetsSound, UsageIsHeld, OncePerIdentity, UniqueKeys, Nearest;
      var ref := FindReference(Parents(journal), bindings, id);
      if ref.None? {
        return true;
      }
      var decision := admissions[bindings[ref.value].admission].decision;
      allowed := decision == Approved || decision == NotRequired;
    }

    /** What is left of each rule in force: the rules are those every ancestor has. */
    method PolicyCapacity(key: string, day: int) returns (r: Result<Option<seq<Capacity>>, PolicyError>)
      requires Valid()
      ensures r.Err? <==> !Delegation.WithinDepth(keys, key)
      ensures r.Ok? ==>
        var ps := Collected(policies, Delegation.Ancestry(keys, key));
        && (r.value.None? <==> ps == [])
        && (r.value.Some? ==>
              var cs := r.value.value;
              && (forall k :: AllHaveRule(ps, k) <==> exists i | 0 <= i < |cs| :: RuleKey(cs[i].currency, cs[i].precision) == k)
              && (forall i | 0 <= i < |cs| :: cs[i].remaining == Remaining(usage, ps, RuleKey(cs[i].currency, cs[i].precision), day))
              && (forall i | 0 <= i < |cs| :: ReportsUse(usage, ps, RuleKey(cs[i].currency, cs[i].precision), day, cs[i].used))
              && (forall i | 0 <= i < |cs| :: ListsBudgets(usage, ps, RuleKey(cs[i].currency, cs[i].precision), day, cs[i].budgets)))
    {
      hide Inv, UniqueKeys, Delegation.WithinDepth, Delegation.Ancestry, Delegation.PathToRoot, Collected, Conjunction, AllHaveRule,
        Remaining, RuleKey, ReportsUse, ListsBudgets;
      var ids := Delegation.KeyAncestry(keys, key);
      if ids.None? {
        return Err(Denied);
      }
      Delegation.PathIsUnique(keys, key, ids.value, Delegation.Ancestry(keys, key));
      var ps := AncestorPolicies(ids.value);
      CollectedUnique(policies, ids.value);
      var inForce := Intersect(key, ps);
      if inForce.None? {
        return Ok(None);
      }
      var rules, cs: seq<Capacity> := inForce.value.rules, [];
      for i := 0 to |rules|
        invariant |cs| == i
        invariant forall j | 0 <= j < i :: cs[j].currency == rules[j].currency && cs[j].precision == rules[j].precision
        invariant forall j | 0 <= j < i :: cs[j].remaining == Remaining(usage, ps, RuleKey(cs[j].currency, cs[j].precision), day)
        invariant forall j | 0 <= j < i :: ReportsUse(usage, ps, RuleKey(cs[j].currency, cs[j].precision), day, cs[j].used)
        invariant forall j | 0 <= j < i :: ListsBudgets(usage, ps, RuleKey(cs[j].currency, cs[j].precision), day, cs[j].budgets)
      {
        var budgets, used, remaining := CapacityOf(usage, ps, RuleKey(rules[i].currency, rules[i].precision), day);
        cs := cs + [Capacity(budgets, rules[i].currency, rules[i].precision, used, remaining)];
      }
      ConjunctionSays(inForce.value, ps);
      forall k ensures AllHaveRule(ps, k) <==> exists i | 0 <= i < |cs| :: RuleKey(cs[i].currency, cs[i].precision) == k {
        RuleListed(rules, cs, k);
      }
      r := Ok(Some(cs));
    }
  }

  lemma RuleListed(rules: seq<Rule>, cs: seq<Capacity>, k: string)
    requires |cs| == |rules| && forall j | 0 <= j < |cs| :: cs[j].currency == rules[j].currency && cs[j].precision == rules[j].precision
    ensures Find(rules, k).Some? <==> exists i | 0 <= i < |cs| :: RuleKey(cs[i].currency, cs[i].precision) == k
  {
    hide RuleKey;
    if Find(rules, k).Some? {
      var i := FindFrom(rules, k);
      assert RuleKey(cs[i].currency, cs[i].precision) == k;
    }
    if i :| 0 <= i < |cs| && RuleKey(cs[i].currency, cs[i].precision) == k {
      FindNone(rules, i);
    }
  }

  lemma InvSays(t: Tables)
    requires Inv(t)
    ensures BindingsSound(t) && UniqueTransactions(t.bindings)
  {
    hide BindingsSound, UniqueTransactions, BudgetsSound, OncePerIdentity, UsageIsHeld;
  }

  lemma OutcomeKeeps(keys: Delegation.Keys, t: Tables, request: Request, after: Tables, r: Result<Option<string>, PolicyError>)
    requires Inv(t) && AdmitOutcome(keys, t, request, after, r)
    ensures Inv(after)
  {
    hide Inv, Step, Admissible, Replayed;
    StepKeeps(keys, t, Admit(request));
  }

  // ----- fingerprints

  ghost predicate FingerprintsSound(h: seq<Leg> -> string, t: Tables)
  {
    forall a | a in t.admissions :: t.admissions[a].fingerprint == h(Blanked(t.admissions[a].legs))
  }

  ghost predicate Honest(h: seq<Leg> -> string, events: seq<Event>)
  {
    forall e | e in events && e.Admit? :: e.request.fingerprint == h(Blanked(e.request.legs))
  }

  lemma StepKeepsFingerprints(h: seq<Leg> -> string, keys: Delegation.Keys, t: Tables, e: Event)
    requires FingerprintsSound(h, t) && (e.Admit? ==> e.request.fingerprint == h(Blanked(e.request.legs)))
    ensures FingerprintsSound(h, Step(keys, t, e))
  {
    hide Blanked, ReleasedUsage, ChargedUsage, ChargedBudgets, NewBindings, Totals, Admissible, FullyReleased, DecisionFor, Versions,
      Delegation.Independent, CanApprove;
  }

  lemma {:induction false} RunKeepsFingerprints(h: seq<Leg> -> string, keys: Delegation.Keys, t: Tables, events: seq<Event>)
    requires FingerprintsSound(h, t) && Honest(h, events)
    ensures FingerprintsSound(h, Run(keys, t, events))
  {
    hide Blanked, Step, FingerprintsSound;
    if events != [] {
      var front := events[..|events| - 1];
      assert events[|events| - 1] in events && forall e | e in front :: e in events;
      RunKeepsFingerprints(h, keys, t, front);
      StepKeepsFingerprints(h, keys, Run(keys, t, front), events[|events| - 1]);
    }
  }

  /** In every reachable state, a replay is answered with the stored admission exactly when that is
      not spent and the legs are the stored ones, transaction IDs aside; or the fingerprint collides. */
  lemma ReplayMeansSameLegs(h: seq<Leg> -> string, keys: Delegation.Keys, events: seq<Event>, a: string, legs: seq<Leg>)
    returns (x: seq<Leg>, y: seq<Leg>)
    requires Honest(h, events) && a in Run(keys, EMPTY, events).admissions
    ensures
      var t := Run(keys, EMPTY, events);
      var same := Blanked(legs) == Blanked(t.admissions[a].legs);
      && (same && !Spent(t, a) ==> Replayed(t, a, h(Blanked(legs))) == Ok(Some(a)))
      && (Replayed(t, a, h(Blanked(legs))).Ok? ==> !Spent(t, a) && (same || (x != y && h(x) == h(y))))
  {
    hide Blanked, Run, Spent;
    RunKeepsFingerprints(h, keys, EMPTY, events);
    x, y := Blanked(legs), Blanked(Run(keys, EMPTY, events).admissions[a].legs);
  }
}
