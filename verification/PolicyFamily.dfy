/** How much of a reservation its transactions have freed. The journal rows that belong to a binding
    are found by following parents downward from the rows that carry its reference. */
module PolicyFamily {
  import opened Basics
  import opened PolicyRules
  import opened Budgets
  import opened PolicyRuns
  import Delegation
  import Sums

  /** A row of the transactions table. */
  datatype Row = Row(reference: string, parent: string, status: string, amount: nat, source: string, destination: string,
                     currency: string, precision: nat)

  type Journal = map<string, Row>

  function Parents(journal: Journal): map<string, string>
  {
    map id | id in journal :: journal[id].parent
  }

  /** The row was recorded under the reference itself or under that of its queued copy. */
  predicate Original(row: Row, reference: string)
  {
    row.reference == reference || row.reference == reference + "_q"
  }

  /** A child row counts for the binding when it moves the same money and no other binding owns it. */
  predicate Follows(journal: Journal, bindings: map<string, Binding>, reference: string, id: string)
    requires reference in bindings && id in journal
  {
    var row, b := journal[id], bindings[reference];
    && row.source == b.source && row.destination == b.destination && RuleKey(row.currency, row.precision) == b.rule
    && forall other | other in bindings :: bindings[other].transactionId == id ==> other == reference
  }

  /** Holds every original row and every counting child of its members. */
  ghost predicate Closed(journal: Journal, bindings: map<string, Binding>, reference: string, s: set<string>)
    requires reference in bindings
  {
    && (forall id | id in journal :: Original(journal[id], reference) ==> id in s)
    && (forall id | id in journal :: journal[id].parent in s && Follows(journal, bindings, reference, id) ==> id in s)
  }

  /** The rows of a binding: the least closed set. */
  ghost function Family(journal: Journal, bindings: map<string, Binding>, reference: string): set<string>
    requires reference in bindings
  {
    set id | id in journal && forall s | Closed(journal, bindings, reference, s) :: id in s
  }

  /** The least closed set, grown by one generation per round. */
  method ReadFamily(journal: Journal, bindings: map<string, Binding>, reference: string) returns (family: set<string>)
    requires reference in bindings
    ensures family == Family(journal, bindings, reference)
  {
    hide Follows, Original;
    family := set id | id in journal && Original(journal[id], reference);
    var grown := true;
    while grown
      invariant family <= journal.Keys
      invariant forall id | id in journal && Original(journal[id], reference) :: id in family
      invariant forall s | Closed(journal, bindings, reference, s) :: family <= s
      invariant !grown ==> Closed(journal, bindings, reference, family)
      decreases journal.Keys - family, grown
    {
      var children := set id | id in journal && journal[id].parent in family && Follows(journal, bindings, reference, id);
      grown := !(children <= family);
      if grown {
        var id :| id in children && id !in family;
        assert id in journal.Keys - family && id !in journal.Keys - (family + children);
        family := family + children;
      } else {
        assert forall id | id in journal && journal[id].parent in family && Follows(journal, bindings, reference, id) :: id in children;
      }
    }
  }

  predicate RejectedOutright(journal: Journal, reference: string)
  {
    exists id | id in journal :: journal[id].status == "REJECTED" && Original(journal[id], reference)
  }

  function Voids(journal: Journal, family: set<string>): map<string, int>
  {
    map id | id in family && id in journal && journal[id].status == "VOID" :: journal[id].amount
  }

  /** All of the reservation when it was rejected outright, and otherwise its voided units, at most all of it. */
  ghost function Releasable(journal: Journal, bindings: map<string, Binding>, reference: string): (n: nat)
    requires reference in bindings
    ensures n <= bindings[reference].amount
  {
    var amount, voids := bindings[reference].amount, Voids(journal, Family(journal, bindings, reference));
    Sums.Bounds(voids);
    if RejectedOutright(journal, reference) then amount else Min(amount, Sums.Total(voids))
  }

  method SumVoids(journal: Journal, family: set<string>) returns (sum: nat)
    ensures sum == Sums.Total(Voids(journal, family))
  {
    var rest := family;
    ghost var done := {};
    sum := 0;
    while rest != {}
      invariant done + rest == family && done !! rest
      invariant sum == Sums.Total(Voids(journal, done))
    {
      var id :| id in rest;
      OneMoreVoid(journal, done, id);
      if id in journal && journal[id].status == "VOID" {
        sum := sum + journal[id].amount;
      }
      rest, done := rest - {id}, done + {id};
    }
  }

  lemma OneMoreVoid(journal: Journal, done: set<string>, id: string)
    requires id !in done
    ensures
      Sums.Total(Voids(journal, done + {id})) ==
      Sums.Total(Voids(journal, done)) + if id in journal && journal[id].status == "VOID" then journal[id].amount else 0
  {
    if id in journal && journal[id].status == "VOID" {
      Sums.Put(Voids(journal, done), id, journal[id].amount);
      assert Voids(journal, done + {id}) == Voids(journal, done)[id := journal[id].amount];
    } else {
      assert Voids(journal, done + {id}) == Voids(journal, done);
    }
  }

  method ReleasableCapacity(journal: Journal, bindings: map<string, Binding>, reference: string) returns (n: nat)
    requires reference in bindings
    ensures n == Releasable(journal, bindings, reference)
  {
    hide Family, Voids, Sums.Total;
    var family := ReadFamily(journal, bindings, reference);
    var rejected := false;
    var rest := family;
    OriginalsBelong(journal, bindings, reference);
    while rest != {}
      invariant rest <= family
      invariant rejected ==> RejectedOutright(journal, reference)
      invariant RejectedOutright(journal, reference) && !rejected ==>
        exists id | id in rest && id in journal :: journal[id].status == "REJECTED" && Original(journal[id], reference)
    {
      var id :| id in rest;
      rejected := rejected || (id in journal && journal[id].status == "REJECTED" && Original(journal[id], reference));
      rest := rest - {id};
    }
    var sum := SumVoids(journal, family);
    n := if rejected then bindings[reference].amount else Min(bindings[reference].amount, sum);
  }

  lemma OriginalsBelong(journal: Journal, bindings: map<string, Binding>, reference: string)
    requires reference in bindings
    ensures forall id | id in journal && Original(journal[id], reference) :: id in Family(journal, bindings, reference)
  {
    hide Follows, Original;
  }

  // ----- the journal only grows

  ghost predicate Grown(journal: Journal, later: Journal)
  {
    forall id | id in journal :: id in later && later[id] == journal[id]
  }

  lemma FamilyGrows(journal: Journal, later: Journal, bindings: map<string, Binding>, reference: string)
    requires reference in bindings && Grown(journal, later)
    ensures Family(journal, bindings, reference) <= Family(later, bindings, reference)
  {
    hide Original;
    forall id, s | id in Family(journal, bindings, reference) && Closed(later, bindings, reference, s) ensures id in s {
      assert Closed(journal, bindings, reference, s);
    }
  }

  /** Rows are only added, so what has been freed never becomes less. */
  lemma ReleasableGrows(journal: Journal, later: Journal, bindings: map<string, Binding>, reference: string)
    requires reference in bindings && Grown(journal, later)
    ensures Releasable(journal, bindings, reference) <= Releasable(later, bindings, reference)
  {
    hide Family, Sums.Total, Original;
    FamilyGrows(journal, later, bindings, reference);
    var before, after := Voids(journal, Family(journal, bindings, reference)), Voids(later, Family(later, bindings, reference));
    assert forall id | id in before :: id in after && after[id] == before[id];
    Sums.Grows(before, after);
  }

  /** A release records exactly what the journal has freed, if no earlier one recorded more. */
  lemma ReleaseSettles(keys: Delegation.Keys, t: Tables, journal: Journal, later: Journal, reference: string, posted: bool)
    requires reference in t.bindings && Grown(journal, later)
    requires t.bindings[reference].released <= Releasable(journal, t.bindings, reference)
    ensures
      var unused := Releasable(later, t.bindings, reference);
      var after := Step(keys, t, Release(reference, unused, posted));
      reference in after.bindings && after.bindings[reference] == t.bindings[reference].(released := unused)
  {
    hide Releasable, Step, Highest, ReleaseAmounts, Grown;
    ReleasableGrows(journal, later, t.bindings, reference);
    var x, unused := t.bindings[reference], Releasable(later, t.bindings, reference);
    StepReleases(keys, t, Release(reference, unused, posted), reference);
    OneRelease(Release(reference, unused, posted), reference, x.released, x.amount);
  }
}
