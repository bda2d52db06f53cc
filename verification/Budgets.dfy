/** The tables behind spending policies: daily usage per key and rule, admissions, the budgets an
    admission charged, and the bindings of its legs. */
module Budgets {
  import opened Basics
  import opened PolicyRules
  import Sums

  datatype Bucket = Bucket(key: string, rule: string, day: int)
  datatype BudgetId = BudgetId(admission: string, key: string, rule: string)
  datatype Decision = NotRequired | Pending | Approved | Rejected

  /** Who took a decision; the void-or-failure trigger acts as the system. */
  datatype Decider = Nobody | Master | Key(id: string) | System

  datatype Admission = Admission(apiKeyId: string, identity: string, version: int, day: int, fingerprint: string,
                                 decision: Decision, decidedBy: Decider, legs: seq<Leg>)

  datatype Binding = Binding(transactionId: string, admission: string, source: string, destination: string,
                             rule: string, amount: nat, released: nat)

  /** Usage by bucket, admissions by ID, charged budgets, and bindings by reference. */
  datatype Tables = Tables(usage: map<Bucket, int>, admissions: map<string, Admission>, budgets: map<BudgetId, nat>,
                           bindings: map<string, Binding>)

  function Used(usage: map<Bucket, int>, b: Bucket): int
  {
    if b in usage then usage[b] else 0
  }

  // ----- one admission

  datatype Request = Request(key: string, identity: string, legs: seq<Leg>, policies: seq<KeyPolicy>, day: int,
                             id: string, fingerprint: string)

  function AmountOf(leg: Leg): nat
  {
    Integer(leg.amount).GetOr(0)
  }

  /** The amount requested under each rule key. */
  function Totals(legs: seq<Leg>): map<string, nat>
  {
    if legs == [] then map[]
    else
      var before, leg := Totals(legs[..|legs| - 1]), legs[|legs| - 1];
      before[KeyOf(leg) := (if KeyOf(leg) in before then before[KeyOf(leg)] else 0) + AmountOf(leg)]
  }

  function Payers(ps: seq<KeyPolicy>): set<string>
  {
    set p | p in ps :: p.apiKeyId
  }

  predicate Pays(payers: set<string>, totals: map<string, nat>, day: int, b: Bucket)
  {
    b.key in payers && b.rule in totals && b.day == day
  }

  function BucketsOf(payers: set<string>, totals: map<string, nat>, day: int): set<Bucket>
  {
    set k, r | k in payers && r in totals :: Bucket(k, r, day)
  }

  function BudgetIdsOf(id: string, payers: set<string>, totals: map<string, nat>): set<BudgetId>
  {
    set k, r | k in payers && r in totals :: BudgetId(id, k, r)
  }

  /** Every payer is charged the total of every rule. */
  function ChargedUsage(usage: map<Bucket, int>, payers: set<string>, totals: map<string, nat>, day: int): map<Bucket, int>
  {
    map b | b in usage.Keys + BucketsOf(payers, totals, day) ::
      Used(usage, b) + if Pays(payers, totals, day, b) then totals[b.rule] else 0
  }

  function ChargedBudgets(id: string, payers: set<string>, totals: map<string, nat>): map<BudgetId, nat>
  {
    map x | x in BudgetIdsOf(id, payers, totals) && x.rule in totals :: totals[x.rule]
  }

  function NewBindings(id: string, legs: seq<Leg>): map<string, Binding>
  {
    if legs == [] then map[]
    else
      var leg := legs[|legs| - 1];
      NewBindings(id, legs[..|legs| - 1])[leg.reference :=
        Binding(leg.transactionId, id, leg.source, leg.destination, KeyOf(leg), AmountOf(leg), 0)]
  }

  ghost predicate Recorded(t: Tables, key: string, identity: string, a: string)
  {
    a in t.admissions && t.admissions[a].apiKeyId == key && t.admissions[a].identity == identity
  }

  predicate TransactionBound(bindings: map<string, Binding>, id: string)
  {
    exists ref | ref in bindings :: bindings[ref].transactionId == id
  }

  /** The references and transaction IDs of the legs are new and distinct. */
  ghost predicate Fresh(t: Tables, legs: seq<Leg>)
  {
    && (forall i | 0 <= i < |legs| :: legs[i].reference !in t.bindings && !TransactionBound(t.bindings, legs[i].transactionId))
    && (forall i, j | 0 <= i < j < |legs| ::
          legs[i].reference != legs[j].reference && legs[i].transactionId != legs[j].transactionId)
  }

  ghost predicate WithinDaily(usage: map<Bucket, int>, p: KeyPolicy, totals: map<string, nat>, day: int)
  {
    forall k | k in totals :: Within(DailyOf(p, k), Used(usage, Bucket(p.apiKeyId, k, day)) + totals[k])
  }

  /** Each policy of the ancestry, on its own, allows the whole request. */
  ghost predicate Admissible(t: Tables, r: Request)
  {
    var totals := Totals(r.legs);
    && r.legs != []
    && (forall leg | leg in r.legs :: Integer(leg.amount).Some? && AllAdmit(r.policies, leg))
    && (forall k | k in totals :: AllWithinMax(r.policies, k, totals[k]))
    && (forall p | p in r.policies :: WithinDaily(t.usage, p, totals, r.day))
    && r.id !in t.admissions && Fresh(t, r.legs)
  }

  ghost function DecisionFor(r: Request): Decision
  {
    var totals := Totals(r.legs);
    if exists k | k in totals :: !AllBelowApproval(r.policies, k, totals[k]) then Pending else NotRequired
  }

  ghost function Admitted(t: Tables, r: Request): Tables
  {
    var totals, payers := Totals(r.legs), Payers(r.policies);
    Tables(
      ChargedUsage(t.usage, payers, totals, r.day),
      t.admissions[r.id := Admission(r.key, r.identity, Versions(r.policies), r.day, r.fingerprint, DecisionFor(r), Nobody, r.legs)],
      t.budgets + ChargedBudgets(r.id, payers, totals),
      t.bindings + NewBindings(r.id, r.legs))
  }

  // ----- releasing and deciding

  predicate Charges(t: Tables, a: string, b: Bucket)
  {
    a in t.admissions && BudgetId(a, b.key, b.rule) in t.budgets && t.admissions[a].day == b.day
  }

  /** Every budget of the admission under the rule gets delta back. */
  function ReleasedUsage(t: Tables, a: string, rule: string, delta: int): map<Bucket, int>
  {
    map b | b in t.usage :: t.usage[b] - if b.rule == rule && Charges(t, a, b) then delta else 0
  }

  ghost predicate FullyReleased(bindings: map<string, Binding>, a: string)
  {
    forall ref | ref in bindings && bindings[ref].admission == a :: bindings[ref].released >= bindings[ref].amount
  }

  function WithDecision(t: Tables, a: string, decision: Decision, actor: Decider): Tables
    requires a in t.admissions
  {
    t.(admissions := t.admissions[a := t.admissions[a].(decision := decision, decidedBy := actor)])
  }

  /** A pending admission whose legs are all released can never be used any more. */
  ghost function RejectExhausted(t: Tables, a: string): Tables
  {
    if a in t.admissions && t.admissions[a].decision == Pending && FullyReleased(t.bindings, a) then
      WithDecision(t, a, Rejected, System)
    else t
  }

  /** Only what the releasable amount exceeds the earlier releases by is given back. */
  function GiveBack(t: Tables, ref: string, unused: nat): Tables
    requires ref in t.bindings
  {
    var x := t.bindings[ref];
    if unused <= x.released then t
    else
      t.(usage := ReleasedUsage(t, x.admission, x.rule, unused - x.released),
         bindings := t.bindings[ref := x.(released := unused)])
  }

  function Verdict(approve: bool): Decision
  {
    if approve then Approved else Rejected
  }

  // ----- the invariant

  ghost function Amounts(bindings: map<string, Binding>, a: string, rule: string): map<string, int>
  {
    map ref | ref in bindings && bindings[ref].admission == a && bindings[ref].rule == rule :: bindings[ref].amount
  }

  ghost function Releases(bindings: map<string, Binding>, a: string, rule: string): map<string, int>
  {
    map ref | ref in bindings && bindings[ref].admission == a && bindings[ref].rule == rule :: bindings[ref].released
  }

  ghost function ReleasedTotal(bindings: map<string, Binding>, a: string, rule: string): int
  {
    Sums.Total(Releases(bindings, a, rule))
  }

  /** What an admission still holds of a bucket: what it was charged less what it gave back. */
  ghost function HeldBy(t: Tables, a: string, b: Bucket): int
    requires Charges(t, a, b)
  {
    t.budgets[BudgetId(a, b.key, b.rule)] - ReleasedTotal(t.bindings, a, b.rule)
  }

  ghost function Held(t: Tables, b: Bucket): map<string, int>
  {
    map a | a in t.admissions && Charges(t, a, b) :: HeldBy(t, a, b)
  }

  ghost predicate BindingsSound(t: Tables)
  {
    && (forall ref | ref in t.bindings :: t.bindings[ref].admission in t.admissions)
    && (forall ref | ref in t.bindings :: t.bindings[ref].released <= t.bindings[ref].amount)
  }

  ghost predicate UniqueTransactions(bindings: map<string, Binding>)
  {
    forall r, s | r in bindings && s in bindings && bindings[r].transactionId == bindings[s].transactionId :: r == s
  }

  ghost predicate BudgetsSound(t: Tables)
  {
    forall x | x in t.budgets ::
      && x.admission in t.admissions && Bucket(x.key, x.rule, t.admissions[x.admission].day) in t.usage
      && t.budgets[x] == Sums.Total(Amounts(t.bindings, x.admission, x.rule))
  }

  ghost predicate OncePerIdentity(t: Tables)
  {
    forall a, b | a in t.admissions && b in t.admissions && t.admissions[a].apiKeyId == t.admissions[b].apiKeyId &&
      t.admissions[a].identity == t.admissions[b].identity :: a == b
  }

  ghost predicate UsageIsHeld(t: Tables)
  {
    forall b :: Used(t.usage, b) == Sums.Total(Held(t, b))
  }

  ghost predicate Inv(t: Tables)
  {
    BindingsSound(t) && UniqueTransactions(t.bindings) && BudgetsSound(t) && OncePerIdentity(t) && UsageIsHeld(t)
  }

  // ----- admitting keeps the invariant

  lemma UsedAfterCharge(usage: map<Bucket, int>, payers: set<string>, totals: map<string, nat>, day: int, b: Bucket)
    ensures Used(ChargedUsage(usage, payers, totals, day), b) ==
            Used(usage, b) + if Pays(payers, totals, day, b) then totals[b.rule] else 0
  {
    if Pays(payers, totals, day, b) {
      assert b == Bucket(b.key, b.rule, day) && b in BucketsOf(payers, totals, day);
    }
  }

  ghost predicate DistinctReferences(legs: seq<Leg>)
  {
    forall i, j | 0 <= i < j < |legs| :: legs[i].reference != legs[j].reference
  }

  lemma {:induction false} NewBindingFrom(id: string, legs: seq<Leg>, ref: string) returns (i: nat)
    requires ref in NewBindings(id, legs)
    ensures i < |legs| && legs[i].reference == ref
    ensures NewBindings(id, legs)[ref] ==
      Binding(legs[i].transactionId, id, legs[i].source, legs[i].destination, KeyOf(legs[i]), AmountOf(legs[i]), 0)
  {
    var last := |legs| - 1;
    if legs[last].reference == ref {
      i := last;
    } else {
      i := NewBindingFrom(id, legs[..last], ref);
    }
  }

  lemma {:induction false} NewBindingAt(id: string, legs: seq<Leg>, i: nat)
    requires DistinctReferences(legs) && i < |legs|
    ensures legs[i].reference in NewBindings(id, legs)
    ensures NewBindings(id, legs)[legs[i].reference] ==
      Binding(legs[i].transactionId, id, legs[i].source, legs[i].destination, KeyOf(legs[i]), AmountOf(legs[i]), 0)
    decreases |legs|
  {
    hide KeyOf, AmountOf;
    if i < |legs| - 1 {
      NewBindingAt(id, legs[..|legs| - 1], i);
    }
  }

  lemma NoBindings(id: string, k: string)
    ensures Sums.Total(Amounts(map[], id, k)) == 0
  {
    assert Amounts(map[], id, k) == map[];
    Sums.Zero(Amounts(map[], id, k));
  }

  lemma {:induction false} NewBindingTotals(id: string, legs: seq<Leg>, k: string)
    requires DistinctReferences(legs)
    ensures Sums.Total(Amounts(NewBindings(id, legs), id, k)) == if k in Totals(legs) then Totals(legs)[k] else 0
    decreases |legs|
  {
    hide Sums.Total, KeyOf, AmountOf, Amounts;
    var all := Amounts(NewBindings(id, legs), id, k);
    if legs == [] {
      NoBindings(id, k);
    } else {
      var last := |legs| - 1;
      var front, leg := legs[..last], legs[last];
      NewBindingTotals(id, front, k);
      var before := Amounts(NewBindings(id, front), id, k);
      assert leg.reference !in NewBindings(id, front) by {
        if leg.reference in NewBindings(id, front) {
          var i := NewBindingFrom(id, front, leg.reference);
        }
      }
      OneMoreBinding(NewBindings(id, front), leg.reference, NewBindings(id, legs)[leg.reference], id, k);
      Sums.Put(before, leg.reference, AmountOf(leg));
    }
  }

  lemma OneMoreBinding(rows: map<string, Binding>, ref: string, x: Binding, id: string, k: string)
    requires ref !in rows
    ensures ref !in Amounts(rows, id, k)
    ensures Amounts(rows[ref := x], id, k) ==
      if x.admission == id && x.rule == k then Amounts(rows, id, k)[ref := x.amount] else Amounts(rows, id, k)
  {
  }

  /** Bindings of one admission do not show in the sums of another. */
  lemma OtherAdmission(rows: map<string, Binding>, added: map<string, Binding>, id: string, a: string, rule: string)
    requires forall ref | ref in added :: ref !in rows && added[ref].admission == id
    requires a != id
    ensures Amounts(rows + added, a, rule) == Amounts(rows, a, rule)
    ensures Releases(rows + added, a, rule) == Releases(rows, a, rule)
  {
  }

  lemma OwnAdmission(rows: map<string, Binding>, added: map<string, Binding>, id: string, rule: string)
    requires forall ref | ref in added :: ref !in rows && added[ref].admission == id && added[ref].released == 0
    requires forall ref | ref in rows :: rows[ref].admission != id
    ensures Amounts(rows + added, id, rule) == Amounts(added, id, rule)
    ensures ReleasedTotal(rows + added, id, rule) == 0
  {
    Sums.Zero(Releases(rows + added, id, rule));
  }

  /** What an admission adds to the bindings. */
  lemma AddedBindings(t: Tables, r: Request)
    requires BindingsSound(t) && Admissible(t, r)
    ensures var added := NewBindings(r.id, r.legs);
      && (forall ref | ref in added :: ref !in t.bindings && added[ref].admission == r.id && added[ref].released == 0)
      && (forall ref | ref in t.bindings :: t.bindings[ref].admission != r.id)
      && DistinctReferences(r.legs)
  {
    hide AllAdmit, AllWithinMax, WithinDaily, TransactionBound;
    var added := NewBindings(r.id, r.legs);
    forall ref | ref in added ensures ref !in t.bindings && added[ref].admission == r.id && added[ref].released == 0 {
      var i := NewBindingFrom(r.id, r.legs, ref);
    }
  }

  lemma AdmittedBudgets(t: Tables, r: Request, x: BudgetId)
    requires Inv(t) && Admissible(t, r)
    ensures x in Admitted(t, r).budgets <==>
      x in t.budgets || (x.admission == r.id && x.key in Payers(r.policies) && x.rule in Totals(r.legs))
    ensures x in t.budgets ==> x.admission != r.id && Admitted(t, r).budgets[x] == t.budgets[x]
    ensures x.admission == r.id && x in Admitted(t, r).budgets ==> Admitted(t, r).budgets[x] == Totals(r.legs)[x.rule]
  {
    hide UsageIsHeld, OncePerIdentity, BindingsSound, Totals, NewBindings, ChargedUsage, AllAdmit, AllWithinMax, WithinDaily, Fresh;
    if x.admission == r.id && x.key in Payers(r.policies) && x.rule in Totals(r.legs) {
      assert x == BudgetId(r.id, x.key, x.rule);
      assert x in BudgetIdsOf(r.id, Payers(r.policies), Totals(r.legs));
    }
  }

  lemma OldHoldings(t: Tables, r: Request, a: string, b: Bucket)
    requires Inv(t) && Admissible(t, r) && a in t.admissions
    ensures Charges(Admitted(t, r), a, b) <==> Charges(t, a, b)
    ensures Charges(t, a, b) ==> HeldBy(Admitted(t, r), a, b) == HeldBy(t, a, b)
  {
    hide Sums.Total, Totals, NewBindings, ChargedUsage, ChargedBudgets, Payers, DecisionFor, Versions, Fresh,
      UsageIsHeld, OncePerIdentity, BudgetsSound, AllAdmit, AllWithinMax, WithinDaily, Amounts, Releases;
    AddedBindings(t, r);
    AdmittedBudgets(t, r, BudgetId(a, b.key, b.rule));
    OtherAdmission(t.bindings, NewBindings(r.id, r.legs), r.id, a, b.rule);
  }

  lemma NewHolding(t: Tables, r: Request, b: Bucket)
    requires Inv(t) && Admissible(t, r)
    ensures Charges(Admitted(t, r), r.id, b) <==> Pays(Payers(r.policies), Totals(r.legs), r.day, b)
    ensures Charges(Admitted(t, r), r.id, b) ==> HeldBy(Admitted(t, r), r.id, b) == Totals(r.legs)[b.rule]
  {
    hide Sums.Total, Totals, NewBindings, ChargedUsage, ChargedBudgets, Payers, DecisionFor, Versions, Fresh,
      UsageIsHeld, OncePerIdentity, BindingsSound, AllAdmit, AllWithinMax, WithinDaily, Amounts, Releases;
    AddedBindings(t, r);
    AdmittedBudgets(t, r, BudgetId(r.id, b.key, b.rule));
    OwnAdmission(t.bindings, NewBindings(r.id, r.legs), r.id, b.rule);
  }

  lemma AdmittedHeld(t: Tables, r: Request, b: Bucket)
    requires Inv(t) && Admissible(t, r)
    ensures Held(Admitted(t, r), b) ==
      if Pays(Payers(r.policies), Totals(r.legs), r.day, b) then Held(t, b)[r.id := Totals(r.legs)[b.rule]] else Held(t, b)
  {
    hide *;
    var after := Admitted(t, r);
    assert forall a :: a in after.admissions <==> a in t.admissions || a == r.id by { AdmittedIds(t, r); }
    NewHolding(t, r, b);
    forall a | a in t.admissions
      ensures Charges(after, a, b) <==> Charges(t, a, b)
      ensures Charges(t, a, b) ==> HeldBy(after, a, b) == HeldBy(t, a, b)
    {
      OldHoldings(t, r, a, b);
    }
    HeldIs(after, b);
    HeldIs(t, b);
    NotHeldBefore(t, r, b);
  }

  lemma AdmittedIds(t: Tables, r: Request)
    ensures forall a :: a in Admitted(t, r).admissions <==> a in t.admissions || a == r.id
  {
  }

  lemma HeldIs(t: Tables, b: Bucket)
    ensures forall a :: a in Held(t, b) <==> Charges(t, a, b)
    ensures forall a | Charges(t, a, b) :: Held(t, b)[a] == HeldBy(t, a, b)
    ensures forall a | Charges(t, a, b) :: a in t.admissions
  {
    hide HeldBy;
  }

  lemma AdmittedUsage(t: Tables, r: Request)
    requires Inv(t) && Admissible(t, r)
    ensures UsageIsHeld(Admitted(t, r))
  {
    hide Sums.Total, Totals, NewBindings, ChargedUsage, ChargedBudgets, Payers, DecisionFor, Versions, Admissible,
      OncePerIdentity, BudgetsSound, BindingsSound, Held, Pays, Used;
    var after := Admitted(t, r);
    forall b ensures Used(after.usage, b) == Sums.Total(Held(after, b)) {
      AdmittedHeld(t, r, b);
      UsedAfterCharge(t.usage, Payers(r.policies), Totals(r.legs), r.day, b);
      NotHeldBefore(t, r, b);
      Sums.Put(Held(t, b), r.id, if Pays(Payers(r.policies), Totals(r.legs), r.day, b) then Totals(r.legs)[b.rule] else 0);
    }
  }

  lemma NotHeldBefore(t: Tables, r: Request, b: Bucket)
    requires Admissible(t, r)
    ensures r.id !in Held(t, b)
    ensures Pays(Payers(r.policies), Totals(r.legs), r.day, b) ==> b.rule in Totals(r.legs)
  {
    hide Totals, AllAdmit, AllWithinMax, WithinDaily, Fresh, ReleasedTotal;
  }

  lemma AdmittedBudgetSound(t: Tables, r: Request, x: BudgetId)
    requires Inv(t) && Admissible(t, r) && x in Admitted(t, r).budgets
    ensures var after := Admitted(t, r);
      && x.admission in after.admissions && Bucket(x.key, x.rule, after.admissions[x.admission].day) in after.usage
      && after.budgets[x] == Sums.Total(Amounts(after.bindings, x.admission, x.rule))
  {
    hide Sums.Total, Totals, NewBindings, ChargedBudgets, Payers, DecisionFor, Versions, Fresh, Used,
      UsageIsHeld, OncePerIdentity, AllAdmit, AllWithinMax, WithinDaily, Amounts, Releases;
    AddedBindings(t, r);
    AdmittedBudgets(t, r, x);
    if x.admission == r.id {
      OwnAdmission(t.bindings, NewBindings(r.id, r.legs), r.id, x.rule);
      NewBindingTotals(r.id, r.legs, x.rule);
      assert Bucket(x.key, x.rule, r.day) in BucketsOf(Payers(r.policies), Totals(r.legs), r.day);
    } else {
      OtherAdmission(t.bindings, NewBindings(r.id, r.legs), r.id, x.admission, x.rule);
    }
  }

  /** Budget accounting and exactly-once survive an admission. */
  lemma AdmitKeeps(t: Tables, r: Request)
    requires Inv(t) && Admissible(t, r) && forall a :: !Recorded(t, r.key, r.identity, a)
    ensures Inv(Admitted(t, r))
  {
    var after := Admitted(t, r);
    AdmittedUsage(t, r);
    AdmittedRows(t, r);
    AdmittedTransactions(t, r);
    assert BudgetsSound(after) by {
      hide *;
      forall x | x in after.budgets
        ensures x.admission in after.admissions && Bucket(x.key, x.rule, after.admissions[x.admission].day) in after.usage
        ensures after.budgets[x] == Sums.Total(Amounts(after.bindings, x.admission, x.rule))
      {
        AdmittedBudgetSound(t, r, x);
      }
      BudgetsSoundHolds(after);
    }
  }

  lemma BudgetsSoundHolds(t: Tables)
    requires forall x | x in t.budgets ::
      && x.admission in t.admissions && Bucket(x.key, x.rule, t.admissions[x.admission].day) in t.usage
      && t.budgets[x] == Sums.Total(Amounts(t.bindings, x.admission, x.rule))
    ensures BudgetsSound(t)
  {
    hide Sums.Total, Amounts;
  }

  lemma UniqueJoin(rows: map<string, Binding>, added: map<string, Binding>)
    requires UniqueTransactions(rows) && UniqueTransactions(added)
    requires forall x, y | x in rows && y in added :: rows[x].transactionId != added[y].transactionId
    ensures UniqueTransactions(rows + added)
  {
  }

  lemma NewUnique(id: string, legs: seq<Leg>)
    requires forall i, j | 0 <= i < j < |legs| :: legs[i].transactionId != legs[j].transactionId
    ensures UniqueTransactions(NewBindings(id, legs))
  {
    var added := NewBindings(id, legs);
    hide NewBindings, KeyOf, AmountOf;
    forall x, y | x in added && y in added && added[x].transactionId == added[y].transactionId ensures x == y {
      var i := NewBindingFrom(id, legs, x);
      var j := NewBindingFrom(id, legs, y);
    }
  }

  lemma AdmittedTransactions(t: Tables, r: Request)
    requires UniqueTransactions(t.bindings) && Fresh(t, r.legs)
    ensures UniqueTransactions(Admitted(t, r).bindings)
  {
    hide NewBindings, KeyOf, AmountOf, UniqueTransactions;
    var added := NewBindings(r.id, r.legs);
    NewUnique(r.id, r.legs);
    forall x, y | x in t.bindings && y in added ensures t.bindings[x].transactionId != added[y].transactionId {
      var i := NewBindingFrom(r.id, r.legs, y);
      assert !TransactionBound(t.bindings, r.legs[i].transactionId);
    }
    UniqueJoin(t.bindings, added);
  }

  lemma AdmittedRows(t: Tables, r: Request)
    requires BindingsSound(t) && OncePerIdentity(t) && Admissible(t, r) && forall a :: !Recorded(t, r.key, r.identity, a)
    ensures BindingsSound(Admitted(t, r)) && OncePerIdentity(Admitted(t, r))
  {
    hide Sums.Total, Totals, NewBindings, ChargedUsage, ChargedBudgets, Payers, DecisionFor, Versions, Fresh, Used,
      UsageIsHeld, BudgetsSound, AllAdmit, AllWithinMax, WithinDaily;
    AddedBindings(t, r);
    assert forall a | a in t.admissions :: !Recorded(t, r.key, r.identity, a);
  }

  // ----- releasing keeps the invariant

  lemma ReleaseOne(rows: map<string, Binding>, ref: string, unused: nat, a: string, rule: string)
    requires ref in rows
    ensures var after := rows[ref := rows[ref].(released := unused)];
      && Amounts(after, a, rule) == Amounts(rows, a, rule)
      && ReleasedTotal(after, a, rule) == ReleasedTotal(rows, a, rule) +
           if rows[ref].admission == a && rows[ref].rule == rule then unused - rows[ref].released else 0
  {
    hide Sums.Total;
    var after := rows[ref := rows[ref].(released := unused)];
    if rows[ref].admission == a && rows[ref].rule == rule {
      assert Releases(after, a, rule) == Releases(rows, a, rule)[ref := unused];
      Sums.Put(Releases(rows, a, rule), ref, unused);
    } else {
      assert Releases(after, a, rule) == Releases(rows, a, rule);
    }
  }

  lemma GivenBackHeld(t: Tables, ref: string, unused: nat, b: Bucket)
    requires ref in t.bindings && unused > t.bindings[ref].released
    ensures
      var x := t.bindings[ref];
      Held(GiveBack(t, ref, unused), b) ==
        if b.rule == x.rule && Charges(t, x.admission, b)
        then Held(t, b)[x.admission := HeldBy(t, x.admission, b) - (unused - x.released)]
        else Held(t, b)
  {
    hide Sums.Total, Amounts, Releases, ReleasedTotal, ReleasedUsage, Held;
    var x, after := t.bindings[ref], GiveBack(t, ref, unused);
    forall a
      ensures Charges(after, a, b) <==> Charges(t, a, b)
      ensures Charges(t, a, b) ==> (HeldBy(after, a, b) ==
        HeldBy(t, a, b) - if a == x.admission && b.rule == x.rule then unused - x.released else 0)
    {
      ReleaseOne(t.bindings, ref, unused, a, b.rule);
    }
    HeldIs(after, b);
    HeldIs(t, b);
  }

  lemma GivenBackUsed(t: Tables, ref: string, unused: nat, b: Bucket)
    requires BudgetsSound(t) && ref in t.bindings && unused > t.bindings[ref].released
    ensures
      var x := t.bindings[ref];
      Used(GiveBack(t, ref, unused).usage, b) ==
        Used(t.usage, b) - if b.rule == x.rule && Charges(t, x.admission, b) then unused - x.released else 0
  {
    hide Sums.Total, Amounts;
    var x := t.bindings[ref];
    if Charges(t, x.admission, b) {
      assert BudgetId(x.admission, b.key, b.rule) in t.budgets;
      assert b == Bucket(b.key, b.rule, t.admissions[x.admission].day);
    }
  }

  lemma GivenBackUsage(t: Tables, ref: string, unused: nat)
    requires Inv(t) && ref in t.bindings && unused > t.bindings[ref].released
    ensures UsageIsHeld(GiveBack(t, ref, unused))
  {
    hide Sums.Total, Amounts, Releases, ReleasedTotal, ReleasedUsage, Held, HeldBy, Used, Charges, GiveBack, OncePerIdentity,
      BindingsSound, BudgetsSound;
    var x, after := t.bindings[ref], GiveBack(t, ref, unused);
    forall b ensures Used(after.usage, b) == Sums.Total(Held(after, b)) {
      GivenBackHeld(t, ref, unused, b);
      GivenBackUsed(t, ref, unused, b);
      HeldIs(t, b);
      if b.rule == x.rule && Charges(t, x.admission, b) {
        Sums.Put(Held(t, b), x.admission, HeldBy(t, x.admission, b) - (unused - x.released));
      }
    }
  }

  /** Budget accounting survives a release of at most the reserved amount. */
  lemma GiveBackKeeps(t: Tables, ref: string, unused: nat)
    requires Inv(t) && ref in t.bindings && unused <= t.bindings[ref].amount
    ensures Inv(GiveBack(t, ref, unused))
  {
    hide UsageIsHeld, OncePerIdentity, BindingsSound, BudgetsSound, ReleasedUsage;
    if unused > t.bindings[ref].released {
      GivenBackUsage(t, ref, unused);
      GivenBackRows(t, ref, unused);
    }
  }

  lemma GivenBackRows(t: Tables, ref: string, unused: nat)
    requires Inv(t) && ref in t.bindings && t.bindings[ref].released < unused <= t.bindings[ref].amount
    ensures BindingsSound(GiveBack(t, ref, unused)) && BudgetsSound(GiveBack(t, ref, unused))
    ensures OncePerIdentity(GiveBack(t, ref, unused)) && UniqueTransactions(GiveBack(t, ref, unused).bindings)
  {
    hide Sums.Total, UsageIsHeld, Amounts, ReleasedTotal, Used;
    var after := GiveBack(t, ref, unused);
    forall a, rule ensures Amounts(after.bindings, a, rule) == Amounts(t.bindings, a, rule) {
      ReleaseOne(t.bindings, ref, unused, a, rule);
    }
  }

  lemma SameHeld(t: Tables, a: string, decision: Decision, actor: Decider, b: Bucket)
    requires a in t.admissions
    ensures Held(WithDecision(t, a, decision, actor), b) == Held(t, b)
  {
    hide ReleasedTotal, Held;
    var after := WithDecision(t, a, decision, actor);
    assert forall c :: Charges(after, c, b) <==> Charges(t, c, b);
    HeldIs(after, b);
    HeldIs(t, b);
  }

  lemma DecisionKeeps(t: Tables, a: string, decision: Decision, actor: Decider)
    requires Inv(t) && a in t.admissions
    ensures Inv(WithDecision(t, a, decision, actor))
  {
    hide Sums.Total, Amounts, ReleasedTotal, Used, Held;
    forall b ensures Held(WithDecision(t, a, decision, actor), b) == Held(t, b) {
      SameHeld(t, a, decision, actor, b);
    }
  }
}
