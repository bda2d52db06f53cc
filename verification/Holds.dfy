/** Holds and their settlement over whole runs.

    The journal holds every transaction row. A hold is an INFLIGHT row; commits, voids and
    reserved (queued) commits are rows whose parent is the hold, and the outcome of a queued
    commit is a row whose parent is that queued row. How much of a hold may still be settled is
    computed from the rows alone (database/transaction_inflight.go); the balances carry only
    totals. The invariant ties the two together. */
module Holds {
  import opened Basics
  import opened Sums
  import opened Ledger
  import opened BookKeeping
  import Amounts

  datatype Status = Inflight | Applied | Void | Queued | Rejected

  /** A transaction row; `Queued` stands for a queued row whose action is a commit. */
  datatype Row = Row(parent: string, source: string, destination: string, amount: int, precision: int, status: Status)

  type Rows = map<string, Row>

  datatype State = State(books: Books, rows: Rows)

  // ----- what the rows say about a hold

  ghost predicate HasChild(rows: Rows, id: string)
  {
    exists c :: c in rows && rows[c].parent == id
  }

  ghost predicate HasRejection(rows: Rows, id: string)
  {
    exists c :: c in rows && rows[c].parent == id && rows[c].status.Rejected?
  }

  /** What row x counts against the hold: applied and void children, and queued commits that
      were not rejected. */
  ghost function Committed(rows: Rows, x: string, hold: string): int
    requires x in rows
  {
    var row := rows[x];
    if row.parent != hold then 0
    else if row.status.Applied? || row.status.Void? then row.amount
    else if row.status.Queued? && !HasRejection(rows, x) then row.amount
    else 0
  }

  ghost function CommittedBy(rows: Rows, hold: string): map<string, int>
  {
    map x | x in rows :: Committed(rows, x, hold)
  }

  /** The query total that limits further commits. */
  ghost function TotalCommitted(rows: Rows, hold: string): int
  {
    Total(CommittedBy(rows, hold))
  }

  ghost function Remaining(rows: Rows, hold: string): int
    requires hold in rows
  {
    rows[hold].amount - TotalCommitted(rows, hold)
  }

  ghost predicate Voided(rows: Rows, hold: string)
  {
    exists c :: c in rows && rows[c].parent == hold && rows[c].status.Void?
  }

  // ----- what has really left the hold

  /** What row x took out of the hold: its own commits and voids, and the outcome of its
      queued commits. */
  ghost function Settled(rows: Rows, x: string, hold: string): int
    requires x in rows
  {
    var row := rows[x];
    if row.parent == hold && (row.status.Applied? || row.status.Void?) then row.amount
    else if row.status.Applied? && row.parent in rows && rows[row.parent].status.Queued?
            && rows[row.parent].parent == hold then row.amount
    else 0
  }

  ghost function SettledBy(rows: Rows, hold: string): map<string, int>
  {
    map x | x in rows :: Settled(rows, x, hold)
  }

  /** What is still held. */
  ghost function Open(rows: Rows, hold: string): int
    requires hold in rows
  {
    rows[hold].amount - Total(SettledBy(rows, hold))
  }

  /** Queued commits with no outcome yet. */
  ghost function Pending(rows: Rows, x: string, hold: string): int
    requires x in rows
  {
    var row := rows[x];
    if row.parent == hold && row.status.Queued? && !HasChild(rows, x) then row.amount else 0
  }

  ghost function PendingBy(rows: Rows, hold: string): map<string, int>
  {
    map x | x in rows :: Pending(rows, x, hold)
  }

  ghost function OpenDebits(rows: Rows, id: string): map<string, int>
  {
    map h | h in rows :: if rows[h].status.Inflight? && rows[h].source == id then Open(rows, h) else 0
  }

  ghost function OpenCredits(rows: Rows, id: string): map<string, int>
  {
    map h | h in rows :: if rows[h].status.Inflight? && rows[h].destination == id then Open(rows, h) else 0
  }

  // ----- the invariant

  predicate SameLegs(a: Row, b: Row)
  {
    a.source == b.source && a.destination == b.destination
  }

  predicate ParentFits(rows: Rows, row: Row)
  {
    var parented := row.parent in rows && SameLegs(row, rows[row.parent]);
    match row.status
    case Inflight => row.parent == ""
    case Applied => row.parent == "" || (parented && (rows[row.parent].status.Inflight?
                    || (rows[row.parent].status.Queued? && row.amount == rows[row.parent].amount)))
    case Void => parented && rows[row.parent].status.Inflight?
    case Queued => parented && rows[row.parent].status.Inflight?
    case Rejected => parented && rows[row.parent].status.Queued?
  }

  ghost predicate WellFormed(s: State)
  {
    && "" !in s.rows
    && (forall x {:trigger ParentFits(s.rows, s.rows[x])} | x in s.rows :: ParentFits(s.rows, s.rows[x]))
    && (forall x {:trigger LegsFit(s.books, s.rows[x])} | x in s.rows :: LegsFit(s.books, s.rows[x]))
  }

  predicate LegsFit(books: Books, row: Row)
  {
    row.amount > 0 && row.precision > 0 && row.source in books && row.destination in books && row.source != row.destination
  }

  /** The rows never count more against a hold than it holds, and the difference between what
      they count and what has really left it is exactly its pending commits. */
  ghost predicate HoldAccounted(rows: Rows, h: string)
    requires h in rows
  {
    Remaining(rows, h) >= 0 && Open(rows, h) == Remaining(rows, h) + Total(PendingBy(rows, h))
  }

  ghost predicate HoldsAccounted(rows: Rows)
  {
    forall h | h in rows && rows[h].status.Inflight? :: HoldAccounted(rows, h)
  }

  /** Each balance's inflight totals are its open holds. */
  ghost predicate TotalsAreHolds(s: State)
  {
    forall id | id in s.books ::
      && s.books[id].inflightDebit == Total(OpenDebits(s.rows, id))
      && s.books[id].inflightCredit == Total(OpenCredits(s.rows, id))
  }

  ghost predicate Inv(s: State)
  {
    && WellFormed(s) && HoldsAccounted(s.rows) && TotalsAreHolds(s)
    && DoubleEntry(s.books) && Consistent(s.books)
  }

  // ----- steps

  datatype Command =
    | Transfer(id: string, posting: Posting)
    | Commit(id: string, hold: string, amount: int)
    | QueueCommit(id: string, hold: string, amount: int)
    | RunQueued(id: string, queued: string)
    | RejectQueued(id: string, queued: string)
    | VoidHold(id: string, hold: string)

  ghost predicate IsOpenHold(s: State, hold: string)
  {
    hold in s.rows && s.rows[hold].status.Inflight? && !Voided(s.rows, hold) && Remaining(s.rows, hold) > 0
  }

  /** A request of zero means everything that remains. */
  ghost predicate Committable(s: State, hold: string, amount: int)
  {
    IsOpenHold(s, hold) && 0 <= amount <= Remaining(s.rows, hold)
  }

  ghost function CommitAmount(s: State, hold: string, amount: int): int
    requires Committable(s, hold, amount)
  {
    if amount == 0 then Remaining(s.rows, hold) else amount
  }

  ghost predicate IsPending(s: State, queued: string)
  {
    queued in s.rows && s.rows[queued].status.Queued? && !HasChild(s.rows, queued)
  }

  function Child(parent: Row, id: string, amount: int, status: Status): Row
  {
    Row(id, parent.source, parent.destination, amount, parent.precision, status)
  }

  /** Posts to the books and adds the row, or leaves the state as it was if the books refuse. */
  function Record(s: State, p: Posting, id: string, row: Row): State
  {
    var posted := Post(s.books, p);
    if posted.Some? then State(posted.value, s.rows[id := row]) else s
  }

  function SettleOf(row: Row): Posting
  {
    if row.status.Void? then Release(row.source, row.destination, row.amount)
    else Settle(row.source, row.destination, row.amount, row.precision)
  }

  /** One command; a command whose checks fail changes nothing. */
  ghost function Step(s: State, c: Command): State
  {
    if c.id == "" || c.id in s.rows then s
    else match c
      case Transfer(id, p) =>
        if p.Move? then
          Record(s, p, id, Row("", p.source, p.destination, p.amount, p.precision, if p.inflight then Inflight else Applied))
        else s
      case Commit(id, hold, amount) =>
        if Committable(s, hold, amount) then
          var row := Child(s.rows[hold], hold, CommitAmount(s, hold, amount), Applied);
          Record(s, SettleOf(row), id, row)
        else s
      case QueueCommit(id, hold, amount) =>
        if Committable(s, hold, amount) then
          s.(rows := s.rows[id := Child(s.rows[hold], hold, CommitAmount(s, hold, amount), Queued)])
        else s
      case RunQueued(id, queued) =>
        if IsPending(s, queued) then
          var row := Child(s.rows[queued], queued, s.rows[queued].amount, Applied);
          Record(s, SettleOf(row), id, row)
        else s
      case RejectQueued(id, queued) =>
        if IsPending(s, queued) then
          s.(rows := s.rows[id := Child(s.rows[queued], queued, s.rows[queued].amount, Rejected)])
        else s
      case VoidHold(id, hold) =>
        if IsOpenHold(s, hold) then
          var row := Child(s.rows[hold], hold, Remaining(s.rows, hold), Void);
          Record(s, SettleOf(row), id, row)
        else s
  }

  ghost function Run(s: State, cs: seq<Command>): State
  {
    if cs == [] then s else Step(Run(s, cs[..|cs| - 1]), cs[|cs| - 1])
  }

  // ----- sums when a row is added

  /** A sum over the rows after one new row, when at most one old row changes its share. */
  lemma Extended(m: map<string, int>, m': map<string, int>, id: string, q: string)
    requires id !in m && m'.Keys == m.Keys + {id}
    requires forall x | x in m && x != q :: m'[x] == m[x]
    ensures Total(m') == Total(m) + m'[id] + (if q in m then m'[q] - m[q] else 0)
  {
    Put(m, id, m'[id]);
    if q in m {
      Put(m[id := m'[id]], q, m'[q]);
      assert m' == m[id := m'[id]][q := m'[q]];
    } else {
      assert m' == m[id := m'[id]];
    }
  }

  /** A new row fits the journal: it is fresh and its parent, if any, is already there. */
  ghost predicate Fits(s: State, id: string, row: Row)
  {
    WellFormed(s) && id != "" && id !in s.rows && ParentFits(s.rows, row)
  }

  lemma CommittedAfter(s: State, id: string, row: Row, h: string)
    requires Fits(s, id, row)
    ensures var rows' := s.rows[id := row];
            TotalCommitted(rows', h) == TotalCommitted(s.rows, h) + Committed(rows', id, h)
              + (if row.parent in s.rows then Committed(rows', row.parent, h) - Committed(s.rows, row.parent, h) else 0)
  {
    var rows' := s.rows[id := row];
    forall x | x in s.rows && x != row.parent
      ensures Committed(rows', x, h) == Committed(s.rows, x, h)
    {
      assert ParentFits(s.rows, s.rows[x]);
      assert HasRejection(rows', x) <==> HasRejection(s.rows, x) by {
        if c :| c in s.rows && s.rows[c].parent == x && s.rows[c].status.Rejected? {
          assert c in rows' && rows'[c].parent == x;
        }
      }
    }
    Extended(CommittedBy(s.rows, h), CommittedBy(rows', h), id, row.parent);
  }

  lemma SettledAfter(s: State, id: string, row: Row, h: string)
    requires Fits(s, id, row)
    ensures Total(SettledBy(s.rows[id := row], h)) == Total(SettledBy(s.rows, h)) + Settled(s.rows[id := row], id, h)
  {
    assert forall x | x in s.rows :: ParentFits(s.rows, s.rows[x]);
    Extended(SettledBy(s.rows, h), SettledBy(s.rows[id := row], h), id, "");
  }

  lemma PendingAfter(s: State, id: string, row: Row, h: string)
    requires Fits(s, id, row)
    ensures var rows' := s.rows[id := row];
            Total(PendingBy(rows', h)) == Total(PendingBy(s.rows, h)) + Pending(rows', id, h)
              + (if row.parent in s.rows then Pending(rows', row.parent, h) - Pending(s.rows, row.parent, h) else 0)
  {
    var rows' := s.rows[id := row];
    forall x | x in s.rows && x != row.parent
      ensures Pending(rows', x, h) == Pending(s.rows, x, h)
    {
      assert HasChild(rows', x) <==> HasChild(s.rows, x) by {
        if c :| c in s.rows && s.rows[c].parent == x {
          assert c in rows' && rows'[c].parent == x;
        }
      }
    }
    Extended(PendingBy(s.rows, h), PendingBy(rows', h), id, row.parent);
  }

  // ----- one new row and the holds

  /** The hold a row belongs to: its parent, or the parent of the queued commit it completes. */
  function HoldOf(rows: Rows, row: Row): string
  {
    if row.parent in rows && rows[row.parent].status.Queued? then rows[row.parent].parent else row.parent
  }

  predicate ViaQueue(rows: Rows, row: Row)
  {
    row.parent in rows && rows[row.parent].status.Queued?
  }

  /** A row that may be added: it completes a queued commit at most once. */
  ghost predicate Addable(s: State, id: string, row: Row)
  {
    && Fits(s, id, row)
    && (ViaQueue(s.rows, row) ==> !HasChild(s.rows, row.parent) && row.amount == s.rows[row.parent].amount)
  }

  /** How a new row moves the three figures of an existing hold. */
  lemma HoldDeltas(s: State, id: string, row: Row, h: string)
    requires Addable(s, id, row) && h in s.rows && s.rows[h].status.Inflight?
    ensures var rows' := s.rows[id := row];
            var share := if HoldOf(s.rows, row) == h then row.amount else 0;
            var queue := ViaQueue(s.rows, row);
            && Open(rows', h) == Open(s.rows, h) - (if row.status.Applied? || row.status.Void? then share else 0)
            && Remaining(rows', h) == Remaining(s.rows, h)
                 - (if queue then (if row.status.Rejected? then -share else 0) else share)
            && Total(PendingBy(rows', h)) == Total(PendingBy(s.rows, h))
                 + (if row.status.Queued? then share else if queue then -share else 0)
  {
    hide Total;
    var rows' := s.rows[id := row];
    CommittedAfter(s, id, row, h);
    SettledAfter(s, id, row, h);
    PendingAfter(s, id, row, h);
    assert forall x | x in s.rows :: ParentFits(s.rows, s.rows[x]);
    assert !HasRejection(rows', id) && !HasChild(rows', id);
    if ViaQueue(s.rows, row) {
      var q := row.parent;
      assert rows'[id].parent == q;
      assert HasChild(rows', q);
      assert !HasRejection(s.rows, q);
      assert HasRejection(rows', q) <==> row.status.Rejected?;
    }
  }

  /** A fresh hold is wholly open and wholly remaining. */
  lemma NewHold(s: State, id: string, row: Row)
    requires Fits(s, id, row) && row.parent == ""
    ensures var rows' := s.rows[id := row];
            Open(rows', id) == row.amount == Remaining(rows', id) && Total(PendingBy(rows', id)) == 0
  {
    var rows' := s.rows[id := row];
    assert forall x | x in s.rows :: ParentFits(s.rows, s.rows[x]);
    assert forall x | x in rows' :: rows'[x].parent != id;
    assert forall x | x in rows' :: rows'[x].parent in rows' ==> rows'[rows'[x].parent].parent != id;
    Zero(CommittedBy(rows', id));
    Zero(SettledBy(rows', id));
    Zero(PendingBy(rows', id));
  }

  /** What a row adds to the inflight totals of its legs. */
  function Flow(row: Row): int
  {
    if row.status.Inflight? then row.amount
    else if row.parent != "" && (row.status.Applied? || row.status.Void?) then -row.amount
    else 0
  }

  lemma OpenShares(s: State, id: string, row: Row, h: string)
    requires Addable(s, id, row)
    ensures h in s.rows && s.rows[h].status.Inflight? && h != HoldOf(s.rows, row) ==>
              Open(s.rows[id := row], h) == Open(s.rows, h)
    ensures h == HoldOf(s.rows, row) && h != "" ==>
              && h in s.rows && s.rows[h].status.Inflight? && SameLegs(s.rows[h], row)
              && Open(s.rows[id := row], h) == Open(s.rows, h) + Flow(row)
    ensures h == id && row.status.Inflight? ==> Open(s.rows[id := row], id) == Flow(row)
  {
    if h in s.rows && s.rows[h].status.Inflight? {
      HoldDeltas(s, id, row, h);
    }
    if h == id && row.status.Inflight? {
      NewHold(s, id, row);
    }
    if h == HoldOf(s.rows, row) && h != "" && ViaQueue(s.rows, row) {
      assert ParentFits(s.rows, s.rows[row.parent]);
    }
  }

  lemma NoHold(s: State, id: string, row: Row)
    requires Addable(s, id, row)
    ensures "" !in s.rows
    ensures HoldOf(s.rows, row) == "" ==> row.parent == ""
  {
    if ViaQueue(s.rows, row) {
      assert ParentFits(s.rows, s.rows[row.parent]);
    }
  }

  lemma OpenDebitsAfter(s: State, id: string, row: Row, b: string)
    requires Addable(s, id, row)
    ensures Total(OpenDebits(s.rows[id := row], b)) == Total(OpenDebits(s.rows, b)) + (if row.source == b then Flow(row) else 0)
  {
    hide Total, Open, WellFormed;
    var hold := HoldOf(s.rows, row);
    forall h | h in s.rows && s.rows[h].status.Inflight? && h != hold
      ensures Open(s.rows[id := row], h) == Open(s.rows, h)
    {
      OpenShares(s, id, row, h);
    }
    OpenShares(s, id, row, hold);
    OpenShares(s, id, row, id);
    NoHold(s, id, row);
    Extended(OpenDebits(s.rows, b), OpenDebits(s.rows[id := row], b), id, hold);
  }

  lemma OpenCreditsAfter(s: State, id: string, row: Row, b: string)
    requires Addable(s, id, row)
    ensures Total(OpenCredits(s.rows[id := row], b)) == Total(OpenCredits(s.rows, b)) + (if row.destination == b then Flow(row) else 0)
  {
    hide Total, Open, WellFormed;
    var hold := HoldOf(s.rows, row);
    forall h | h in s.rows && s.rows[h].status.Inflight? && h != hold
      ensures Open(s.rows[id := row], h) == Open(s.rows, h)
    {
      OpenShares(s, id, row, h);
    }
    OpenShares(s, id, row, hold);
    OpenShares(s, id, row, id);
    NoHold(s, id, row);
    Extended(OpenCredits(s.rows, b), OpenCredits(s.rows[id := row], b), id, hold);
  }

  // ----- the books side

  /** The posting whose inflight effect a row records. */
  predicate Matches(row: Row, p: Posting)
  {
    && p.source == row.source && p.destination == row.destination && p.amount == row.amount && row.precision > 0
    && match p
       case Move(_, _, _, inflight, _, _, _, _) =>
         row.parent == "" && row.status == (if inflight then Inflight else Applied)
       case Settle(_, _, _, _) => row.parent != "" && row.status.Applied?
       case Release(_, _, _) => row.parent != "" && row.status.Void?
  }

  lemma PostFlows(books: Books, p: Posting, after: Books, row: Row, b: string)
    requires Post(books, p) == Some(after) && Matches(row, p) && b in books
    ensures b in after
    ensures after[b].inflightDebit == books[b].inflightDebit + (if row.source == b then Flow(row) else 0)
    ensures after[b].inflightCredit == books[b].inflightCredit + (if row.destination == b then Flow(row) else 0)
  {
  }

  lemma KeepsWellFormed(s: State, books: Books, id: string, row: Row)
    requires Fits(s, id, row) && books.Keys == s.books.Keys && LegsFit(books, row)
    ensures WellFormed(State(books, s.rows[id := row]))
  {
    var rows' := s.rows[id := row];
    forall x | x in rows'
      ensures ParentFits(rows', rows'[x]) && LegsFit(books, rows'[x])
    {
      assert x in s.rows ==> ParentFits(s.rows, s.rows[x]) && LegsFit(s.books, s.rows[x]);
    }
  }

  lemma KeepsHoldsAccounted(s: State, id: string, row: Row)
    requires Addable(s, id, row) && HoldsAccounted(s.rows) && row.amount > 0
    requires var h := HoldOf(s.rows, row);
             h != "" && !ViaQueue(s.rows, row) ==> h in s.rows && row.amount <= Remaining(s.rows, h)
    ensures HoldsAccounted(s.rows[id := row])
  {
    var rows' := s.rows[id := row];
    forall h | h in rows' && rows'[h].status.Inflight?
      ensures HoldAccounted(rows', h)
    {
      if h == id {
        NewHold(s, id, row);
      } else {
        assert HoldAccounted(s.rows, h);
        HoldDeltas(s, id, row, h);
      }
    }
  }

  lemma {:induction false} RecordKeeps(s: State, p: Posting, id: string, row: Row)
    requires Inv(s) && Addable(s, id, row) && Matches(row, p)
    requires Post(s.books, p).Some?
    requires var h := HoldOf(s.rows, row);
             h != "" && !ViaQueue(s.rows, row) ==> h in s.rows && row.amount <= Remaining(s.rows, h)
    ensures Inv(Record(s, p, id, row))
  {
    hide Total, Sum;
    var after := Post(s.books, p).value;
    PostKeepsDoubleEntry(s.books, p, after);
    PostKeepsConsistent(s.books, p, after);
    KeepsWellFormed(s, after, id, row);
    KeepsHoldsAccounted(s, id, row);
    forall b | b in after
      ensures after[b].inflightDebit == Total(OpenDebits(s.rows[id := row], b))
      ensures after[b].inflightCredit == Total(OpenCredits(s.rows[id := row], b))
    {
      PostFlows(s.books, p, after, row, b);
      OpenDebitsAfter(s, id, row, b);
      OpenCreditsAfter(s, id, row, b);
    }
  }

  /** A queued commit or its rejection: only rows change. */
  lemma {:induction false} RowKeeps(s: State, id: string, row: Row)
    requires Inv(s) && Addable(s, id, row) && (row.status.Queued? || row.status.Rejected?) && row.amount > 0 && row.precision > 0
    requires row.status.Queued? ==> row.amount <= Remaining(s.rows, row.parent)
    ensures Inv(s.(rows := s.rows[id := row]))
  {
    assert LegsFit(s.books, s.rows[row.parent]);
    KeepsWellFormed(s, s.books, id, row);
    KeepsHoldsAccounted(s, id, row);
    forall b | b in s.books
      ensures s.books[b].inflightDebit == Total(OpenDebits(s.rows[id := row], b))
      ensures s.books[b].inflightCredit == Total(OpenCredits(s.rows[id := row], b))
    {
      OpenDebitsAfter(s, id, row, b);
      OpenCreditsAfter(s, id, row, b);
    }
  }

  // ----- settlements are never refused

  lemma PendingIsNonNegative(s: State, h: string)
    requires WellFormed(s)
    ensures Total(PendingBy(s.rows, h)) >= 0
    ensures forall q | q in s.rows :: Pending(s.rows, q, h) <= Total(PendingBy(s.rows, h))
  {
    assert forall x | x in s.rows :: LegsFit(s.books, s.rows[x]);
    var pending := PendingBy(s.rows, h);
    Bounds(pending);
    assert forall q | q in s.rows :: pending[q] == Pending(s.rows, q, h);
  }

  lemma OpenIsNonNegative(s: State, h: string)
    requires WellFormed(s) && HoldsAccounted(s.rows) && h in s.rows && s.rows[h].status.Inflight?
    ensures Open(s.rows, h) >= Remaining(s.rows, h) >= 0
  {
    assert HoldAccounted(s.rows, h);
    PendingIsNonNegative(s, h);
  }

  /** Every open hold is covered by its source's inflight debit and its destination's inflight
      credit. */
  lemma OpenIsReserved(s: State, h: string)
    requires Inv(s) && h in s.rows && s.rows[h].status.Inflight?
    ensures LegsFit(s.books, s.rows[h])
    ensures 0 <= Open(s.rows, h) <= s.books[s.rows[h].source].inflightDebit
    ensures Open(s.rows, h) <= s.books[s.rows[h].destination].inflightCredit
  {
    hide Total, Open, DoubleEntry, Consistent, Remaining;
    forall x | x in s.rows && s.rows[x].status.Inflight?
      ensures Open(s.rows, x) >= 0
    {
      OpenIsNonNegative(s, x);
    }
    assert LegsFit(s.books, s.rows[h]);
    var debits, credits := OpenDebits(s.rows, s.rows[h].source), OpenCredits(s.rows, s.rows[h].destination);
    Bounds(debits);
    Bounds(credits);
    assert debits[h] == Open(s.rows, h) == credits[h];
  }

  /** Settling or voiding up to what remains of a hold passes both sufficiency checks. */
  lemma RemainingIsReserved(s: State, h: string, amount: int)
    requires Inv(s) && h in s.rows && s.rows[h].status.Inflight?
    requires 0 < amount <= Remaining(s.rows, h)
    ensures LegsFit(s.books, s.rows[h])
    ensures Reserved(s.books[s.rows[h].source], s.books[s.rows[h].destination], amount)
  {
    OpenIsReserved(s, h);
    OpenIsNonNegative(s, h);
    assert LegsFit(s.books, s.rows[h]);
  }

  /** A reserved (queued) commit still passes both checks when it finally runs, whatever else
      was committed or voided on the same hold in between. */
  lemma PendingIsReserved(s: State, queued: string)
    requires Inv(s) && IsPending(s, queued)
    ensures LegsFit(s.books, s.rows[queued])
    ensures Reserved(s.books[s.rows[queued].source], s.books[s.rows[queued].destination], s.rows[queued].amount)
  {
    var h := s.rows[queued].parent;
    assert ParentFits(s.rows, s.rows[queued]) && LegsFit(s.books, s.rows[queued]);
    OpenIsReserved(s, h);
    assert HoldAccounted(s.rows, h);
    PendingIsNonNegative(s, h);
    assert Pending(s.rows, queued, h) == s.rows[queued].amount;
  }

  // ----- runs

  /** A row that settles, voids or reserves part of an open hold can be added. */
  lemma HoldChild(s: State, id: string, hold: string, amount: int, status: Status)
    requires Inv(s) && id != "" && id !in s.rows && hold in s.rows && s.rows[hold].status.Inflight?
    requires status.Applied? || status.Void? || status.Queued?
    ensures var row := Child(s.rows[hold], hold, amount, status);
            Addable(s, id, row) && !ViaQueue(s.rows, row) && HoldOf(s.rows, row) == hold && hold != "" && row.precision > 0
  {
    hide DoubleEntry, Consistent, TotalsAreHolds, HoldsAccounted;
    assert LegsFit(s.books, s.rows[hold]);
  }

  /** So can the outcome of a pending commit. */
  lemma QueueChild(s: State, id: string, queued: string, status: Status)
    requires Inv(s) && id != "" && id !in s.rows && IsPending(s, queued)
    requires status.Applied? || status.Rejected?
    ensures var row := Child(s.rows[queued], queued, s.rows[queued].amount, status);
            Addable(s, id, row) && ViaQueue(s.rows, row) && row.amount > 0 && row.precision > 0 && queued != ""
  {
    hide DoubleEntry, Consistent, TotalsAreHolds, HoldsAccounted;
    assert LegsFit(s.books, s.rows[queued]);
  }

  lemma Settles(s: State, row: Row)
    requires LegsFit(s.books, row) && row.parent != "" && (row.status.Applied? || row.status.Void?)
    requires Reserved(s.books[row.source], s.books[row.destination], row.amount)
    ensures Post(s.books, SettleOf(row)).Some? <==> Accepted(row)
    ensures Matches(row, SettleOf(row))
  {
    hide Settleable;
  }

  /** A void is always accepted; a commit needs an amount that can be validated a second time. */
  predicate Accepted(row: Row)
  {
    row.status.Void? || Settleable(row.amount, row.precision)
  }

  lemma {:induction false} HoldCommandKeeps(s: State, id: string, hold: string, amount: int, status: Status)
    requires Inv(s) && id != "" && id !in s.rows && hold in s.rows && s.rows[hold].status.Inflight?
    requires 0 < amount <= Remaining(s.rows, hold)
    requires status.Applied? || status.Void?
    ensures var row := Child(s.rows[hold], hold, amount, status);
            && Inv(Record(s, SettleOf(row), id, row))
            && (id in Record(s, SettleOf(row), id, row).rows <==> Accepted(row))
  {
    hide Inv, Total, Post, Accepted;
    var row := Child(s.rows[hold], hold, amount, status);
    HoldChild(s, id, hold, amount, status);
    RemainingIsReserved(s, hold, amount);
    Settles(s, row);
    if Accepted(row) {
      RecordKeeps(s, SettleOf(row), id, row);
    }
  }

  lemma {:induction false} QueueCommandKeeps(s: State, id: string, queued: string)
    requires Inv(s) && id != "" && id !in s.rows && IsPending(s, queued)
    ensures var row := Child(s.rows[queued], queued, s.rows[queued].amount, Applied);
            && Inv(Record(s, SettleOf(row), id, row))
            && (id in Record(s, SettleOf(row), id, row).rows <==> Accepted(row))
  {
    hide Inv, Total, Post, Accepted;
    var row := Child(s.rows[queued], queued, s.rows[queued].amount, Applied);
    QueueChild(s, id, queued, Applied);
    PendingIsReserved(s, queued);
    Settles(s, row);
    if Accepted(row) {
      RecordKeeps(s, SettleOf(row), id, row);
    }
  }

  lemma {:induction false} TransferKeeps(s: State, id: string, p: Posting)
    requires Inv(s) && id != "" && id !in s.rows && p.Move? && Post(s.books, p).Some?
    ensures var row := Row("", p.source, p.destination, p.amount, p.precision, if p.inflight then Inflight else Applied);
            Inv(Record(s, p, id, row))
  {
    var row := Row("", p.source, p.destination, p.amount, p.precision, if p.inflight then Inflight else Applied);
    hide DoubleEntry, Consistent, TotalsAreHolds, HoldsAccounted;
    RecordKeeps(s, p, id, row);
  }

  /** The command settles or voids part of a hold and its own checks pass. */
  ghost predicate Settling(s: State, c: Command)
  {
    match c
    case Commit(_, hold, amount) => Committable(s, hold, amount)
    case RunQueued(_, queued) => IsPending(s, queued)
    case VoidHold(_, hold) => IsOpenHold(s, hold)
    case _ => false
  }

  /** The row it is to add. */
  ghost function Outcome(s: State, c: Command): Row
    requires Settling(s, c)
  {
    match c
    case Commit(_, hold, amount) => Child(s.rows[hold], hold, CommitAmount(s, hold, amount), Applied)
    case RunQueued(_, queued) => Child(s.rows[queued], queued, s.rows[queued].amount, Applied)
    case VoidHold(_, hold) => Child(s.rows[hold], hold, Remaining(s.rows, hold), Void)
  }

  /** The balances never refuse a command whose own checks pass: it is recorded if and only if it is a
      void or its amount can be validated a second time. */
  lemma {:induction false} SettlementRecordedIff(s: State, c: Command)
    requires Inv(s) && c.id != "" && c.id !in s.rows && Settling(s, c)
    ensures c.id in Step(s, c).rows <==> Accepted(Outcome(s, c))
    ensures Accepted(Outcome(s, c)) ==> Step(s, c).rows[c.id] == Outcome(s, c)
  {
    hide Inv, Total, Accepted, Post;
    match c
    case Commit(id, hold, amount) => HoldCommandKeeps(s, id, hold, CommitAmount(s, hold, amount), Applied);
    case RunQueued(id, queued) => QueueCommandKeeps(s, id, queued);
    case VoidHold(id, hold) => HoldCommandKeeps(s, id, hold, Remaining(s.rows, hold), Void);
    case _ =>
  }

  /** Below the float64 limit of the hold's scale nothing is ever refused. */
  lemma SettlementNeverRefused(s: State, c: Command)
    requires Inv(s) && c.id != "" && c.id !in s.rows && Settling(s, c)
    requires var row := Outcome(s, c);
      row.precision < Amounts.Power(2, Amounts.FLOAT_EXPONENT) && row.amount < Amounts.FloatOverflow() * row.precision
    ensures c.id in Step(s, c).rows
  {
    hide Inv, Step, Amounts.Reapplicable, Amounts.Power, Amounts.FloatOverflow, Total;
    SettlementRecordedIff(s, c);
    var row := Outcome(s, c);
    OutcomeFits(s, c);
    Amounts.ReapplicableIff(row.amount, row.precision);
  }

  lemma OutcomeFits(s: State, c: Command)
    requires Inv(s) && Settling(s, c)
    ensures LegsFit(s.books, Outcome(s, c))
  {
    hide Total, HoldsAccounted, TotalsAreHolds, DoubleEntry, Consistent, TotalCommitted;
    match c
    case Commit(_, hold, amount) => assert LegsFit(s.books, s.rows[hold]);
    case RunQueued(_, queued) => assert LegsFit(s.books, s.rows[queued]);
    case VoidHold(_, hold) => assert LegsFit(s.books, s.rows[hold]);
    case _ =>
  }

  lemma {:induction false} StepKeeps(s: State, c: Command)
    requires Inv(s)
    ensures Inv(Step(s, c))
  {
    hide Inv, Record, Total;
    if c.id != "" && c.id !in s.rows {
      match c
      case Transfer(id, p) =>
        if p.Move? {
          if Post(s.books, p).Some? {
            TransferKeeps(s, id, p);
          } else {
            RefusedKeeps(s, p, id, Row("", p.source, p.destination, p.amount, p.precision, if p.inflight then Inflight else Applied));
          }
        }
      case Commit(id, hold, amount) =>
        if Committable(s, hold, amount) {
          HoldCommandKeeps(s, id, hold, CommitAmount(s, hold, amount), Applied);
        }
      case QueueCommit(id, hold, amount) =>
        if Committable(s, hold, amount) {
          HoldChild(s, id, hold, CommitAmount(s, hold, amount), Queued);
          RowKeeps(s, id, Child(s.rows[hold], hold, CommitAmount(s, hold, amount), Queued));
        }
      case RunQueued(id, queued) =>
        if IsPending(s, queued) {
          QueueCommandKeeps(s, id, queued);
        }
      case RejectQueued(id, queued) =>
        if IsPending(s, queued) {
          QueueChild(s, id, queued, Rejected);
          RowKeeps(s, id, Child(s.rows[queued], queued, s.rows[queued].amount, Rejected));
        }
      case VoidHold(id, hold) =>
        if IsOpenHold(s, hold) {
          HoldCommandKeeps(s, id, hold, Remaining(s.rows, hold), Void);
        }
    }
  }

  lemma RefusedKeeps(s: State, p: Posting, id: string, row: Row)
    requires Post(s.books, p).None?
    ensures Record(s, p, id, row) == s
  {
  }

  lemma OpeningKeeps(opening: Books)
    requires Opening(opening)
    ensures Inv(State(opening, map[]))
  {
    hide Total, DoubleEntry, Consistent;
    var rows: Rows := map[];
    OpeningHolds(opening, 0);
    forall id | id in opening
      ensures Total(OpenDebits(rows, id)) == 0 == Total(OpenCredits(rows, id))
    {
      Zero(OpenDebits(rows, id));
      Zero(OpenCredits(rows, id));
    }
  }

  /** In every state reachable from zero balances: credits equal debits, settled and inflight;
      each balance's inflight totals are its open holds; and no hold is overdrawn. */
  lemma {:induction false} RunKeeps(opening: Books, cs: seq<Command>)
    requires Opening(opening)
    ensures Inv(Run(State(opening, map[]), cs))
    decreases |cs|
  {
    hide Step, Inv;
    if cs == [] {
      OpeningKeeps(opening);
    } else {
      RunKeeps(opening, cs[..|cs| - 1]);
      StepKeeps(Run(State(opening, map[]), cs[..|cs| - 1]), cs[|cs| - 1]);
    }
  }

  lemma {:induction false} RecordKeepsFloor(s: State, p: Posting, id: string, row: Row, floor: int)
    requires Inv(s) && floor >= 0 && AboveFloor(s.books, floor) && CappedBy(p, floor)
    ensures AboveFloor(Record(s, p, id, row).books, floor)
  {
    hide Total, WellFormed, HoldsAccounted, TotalsAreHolds;
    if Post(s.books, p).Some? {
      PostKeepsFloor(s.books, p, Post(s.books, p).value, floor);
    }
  }

  lemma {:induction false} StepKeepsFloor(s: State, c: Command, floor: int)
    requires Inv(s) && floor >= 0 && AboveFloor(s.books, floor)
    requires c.Transfer? ==> CappedBy(c.posting, floor)
    ensures AboveFloor(Step(s, c).books, floor)
  {
    hide Inv, Record, Total, AboveFloor;
    forall p, id, row | CappedBy(p, floor)
      ensures AboveFloor(Record(s, p, id, row).books, floor)
    {
      RecordKeepsFloor(s, p, id, row, floor);
    }
  }

  /** The solvency floor over runs with holds, partial and queued commits, rejections and voids. */
  lemma {:induction false} RunKeepsFloor(opening: Books, cs: seq<Command>, floor: int)
    requires Opening(opening) && floor >= 0
    requires forall c | c in cs :: c.Transfer? ==> CappedBy(c.posting, floor)
    ensures AboveFloor(Run(State(opening, map[]), cs).books, floor)
    decreases |cs|
  {
    hide Step, Inv, AboveFloor;
    if cs == [] {
      OpeningHolds(opening, floor);
    } else {
      RunKeepsFloor(opening, cs[..|cs| - 1], floor);
      RunKeeps(opening, cs[..|cs| - 1]);
      StepKeepsFloor(Run(State(opening, map[]), cs[..|cs| - 1]), cs[|cs| - 1], floor);
    }
  }
}
