/** Balances at a past moment: from the latest snapshot, or from the whole history
    (database/balance.go). Times are UTC instants; zero is the zero time. */
module History {
  import opened Basics

  /** A stored transaction; an amount that is not an integer literal is None. */
  datatype Entry = Entry(amount: Option<int>, source: string, destination: string, applied: bool,
                         createdAt: int, effectiveDate: Option<int>)
  {
    function When(): int {
      effectiveDate.GetOr(createdAt)
    }
  }

  datatype Snapshot = Snapshot(balanceId: string, time: int, credit: int, debit: int)

  /** Credit and debit totals of a balance. */
  datatype Sides = Sides(credit: int, debit: int)

  datatype HistoryError = BadRequest | NotFound | BadAmount

  // ----- the rows that count

  predicate InRange(e: Entry, id: string, from: int, to: int)
  {
    (e.source == id || e.destination == id) && from < e.When() <= to && e.applied
  }

  function Selected(entries: seq<Entry>, id: string, from: int, to: int): seq<Entry>
  {
    if entries == [] then []
    else
      var front, last := Selected(entries[..|entries| - 1], id, from, to), entries[|entries| - 1];
      if InRange(last, id, from, to) then front + [last] else front
  }

  function Applied(e: Entry, id: string, sides: Sides): Option<Sides>
  {
    if e.amount.None? then None
    else Some(Sides(sides.credit + (if e.destination == id then e.amount.value else 0),
                    sides.debit + (if e.source == id then e.amount.value else 0)))
  }

  /** The totals after a list of rows, or None if some amount cannot be read. */
  function Replay(entries: seq<Entry>, id: string, start: Sides): Option<Sides>
  {
    if entries == [] then Some(start)
    else
      var front := Replay(entries[..|entries| - 1], id, start);
      if front.None? then None else Applied(entries[|entries| - 1], id, front.value)
  }

  method CalculateBalance(entries: seq<Entry>, id: string, start: Sides) returns (r: Option<Sides>)
    ensures r == Replay(entries, id, start)
  {
    var sides := start;
    for i := 0 to |entries|
      invariant Replay(entries[..i], id, start) == Some(sides)
    {
      assert entries[..i + 1][..i] == entries[..i];
      var next := Applied(entries[i], id, sides);
      if next.None? {
        UnreadablePrefix(entries, i + 1, id, start);
        return None;
      }
      sides := next.value;
    }
    assert entries[..|entries|] == entries;
    return Some(sides);
  }

  lemma {:induction false} UnreadablePrefix(entries: seq<Entry>, n: nat, id: string, start: Sides)
    requires n <= |entries| && Replay(entries[..n], id, start).None?
    ensures Replay(entries, id, start).None?
    decreases |entries|
  {
    if n < |entries| {
      assert entries[..|entries| - 1][..n] == entries[..n];
      UnreadablePrefix(entries[..|entries| - 1], n, id, start);
    } else {
      assert entries[..n] == entries;
    }
  }

  // ----- row order does not matter

  function Sum(entries: seq<Entry>, id: string): Sides
  {
    if entries == [] then Sides(0, 0)
    else
      var front, last := Sum(entries[..|entries| - 1], id), entries[|entries| - 1];
      var amount := last.amount.GetOr(0);
      Sides(front.credit + (if last.destination == id then amount else 0),
            front.debit + (if last.source == id then amount else 0))
  }

  predicate Readable(entries: seq<Entry>)
  {
    forall e | e in entries :: e.amount.Some?
  }

  /** Replaying adds the readable amounts to the starting totals. */
  lemma {:induction false} ReplayIsSum(entries: seq<Entry>, id: string, start: Sides)
    ensures Replay(entries, id, start) ==
            if Readable(entries) then Some(Sides(start.credit + Sum(entries, id).credit, start.debit + Sum(entries, id).debit))
            else None
    decreases |entries|
  {
    if entries != [] {
      var n := |entries| - 1;
      ReplayIsSum(entries[..n], id, start);
      assert entries == entries[..n] + [entries[n]];
    }
  }

  lemma {:induction false} SumConcat(a: seq<Entry>, b: seq<Entry>, id: string)
    ensures Sum(a + b, id) == Sides(Sum(a, id).credit + Sum(b, id).credit, Sum(a, id).debit + Sum(b, id).debit)
    decreases |b|
  {
    if b == [] {
      assert a + b == a;
    } else {
      var n := |b| - 1;
      SumConcat(a, b[..n], id);
      assert (a + b)[..|a + b| - 1] == a + b[..n];
    }
  }

  /** Taking one row out of a listing takes its share out of the totals. */
  lemma TakeOut(b: seq<Entry>, i: nat, id: string)
    requires i < |b|
    ensures var rest := b[..i] + b[i + 1..];
            && multiset(rest) == multiset(b) - multiset{b[i]}
            && Sum(b, id) == Sides(Sum(rest, id).credit + Sum([b[i]], id).credit, Sum(rest, id).debit + Sum([b[i]], id).debit)
  {
    assert b == (b[..i] + [b[i]]) + b[i + 1..];
    assert multiset(b) == multiset(b[..i] + b[i + 1..]) + multiset{b[i]};
    SumConcat(b[..i], [b[i]], id);
    SumConcat(b[..i] + [b[i]], b[i + 1..], id);
    SumConcat(b[..i], b[i + 1..], id);
  }

  lemma {:induction false} SumPermuted(a: seq<Entry>, b: seq<Entry>, id: string)
    requires multiset(a) == multiset(b)
    ensures Sum(a, id) == Sum(b, id)
    decreases |a|
  {
    if a == [] {
      assert |multiset(b)| == 0;
    } else {
      var n := |a| - 1;
      hide Sum;
      assert a[n] in multiset(b);
      var i :| 0 <= i < |b| && b[i] == a[n];
      TakeOut(a, n, id);
      TakeOut(b, i, id);
      assert a[..n] + a[n + 1..] == a[..n];
      SumPermuted(a[..n], b[..i] + b[i + 1..], id);
    }
  }

  /** Any listing of the same rows replays to the same totals. */
  lemma ReplayPermuted(a: seq<Entry>, b: seq<Entry>, id: string, start: Sides)
    requires multiset(a) == multiset(b)
    ensures Replay(a, id, start) == Replay(b, id, start)
  {
    hide Replay, Sum, Readable;
    ReplayIsSum(a, id, start);
    ReplayIsSum(b, id, start);
    SumPermuted(a, b, id);
    ReadablePermuted(a, b);
  }

  lemma ReadablePermuted(a: seq<Entry>, b: seq<Entry>)
    requires multiset(a) == multiset(b)
    ensures Readable(a) <==> Readable(b)
  {
    assert forall e :: e in a <==> e in multiset(a);
    assert forall e :: e in b <==> e in multiset(b);
  }

  // ----- snapshots

  /** The latest snapshot of the balance at or before the target. */
  ghost predicate IsLatest(snapshots: seq<Snapshot>, id: string, target: int, s: Snapshot)
  {
    && s in snapshots && s.balanceId == id && s.time <= target
    && forall o | o in snapshots && o.balanceId == id && o.time <= target :: o.time <= s.time
  }

  method MostRecentSnapshot(snapshots: seq<Snapshot>, id: string, target: int) returns (r: Option<Snapshot>)
    ensures r.Some? ==> IsLatest(snapshots, id, target, r.value)
    ensures r.None? ==> forall o | o in snapshots :: !(o.balanceId == id && o.time <= target)
  {
    r := None;
    for i := 0 to |snapshots|
      invariant r.Some? ==> IsLatest(snapshots[..i], id, target, r.value)
      invariant r.None? ==> forall o | o in snapshots[..i] :: !(o.balanceId == id && o.time <= target)
    {
      var o := snapshots[i];
      assert snapshots[..i + 1] == snapshots[..i] + [o];
      if o.balanceId == id && o.time <= target && (r.None? || o.time > r.value.time) {
        r := Some(o);
      }
    }
    assert snapshots[..|snapshots|] == snapshots;
  }

  /** The totals at `to`, replaying the history after the zero time. */
  function FromSource(entries: seq<Entry>, id: string, to: int): Option<Sides>
  {
    Replay(Selected(entries, id, 0, to), id, Sides(0, 0))
  }

  /** The totals at `to`, replaying what came after the snapshot. */
  function FromSnapshot(entries: seq<Entry>, s: Snapshot, id: string, to: int): Option<Sides>
  {
    Replay(Selected(entries, id, s.time, to), id, Sides(s.credit, s.debit))
  }

  /** `query` is the rows the query returns, in any order. The result is the historical balance:
      credit, debit and their difference. */
  method GetBalanceAtTime(balances: set<string>, entries: seq<Entry>, snapshots: seq<Snapshot>, id: string, target: int,
                          fromSource: bool, query: (int, int) -> seq<Entry>) returns (r: Result<(int, Sides), HistoryError>)
    requires forall from, to :: multiset(query(from, to)) == multiset(Selected(entries, id, from, to))
    ensures r.Ok? ==> r.value.0 == r.value.1.credit - r.value.1.debit
    ensures r == Err(BadRequest) <==> id == "" || target == 0
    ensures r == Err(NotFound) <==> id != "" && target != 0 && id !in balances
    ensures id != "" && target != 0 && id in balances ==>
              if fromSource || (forall s | s in snapshots :: !(s.balanceId == id && s.time <= target)) then
                Totals(r) == FromSource(entries, id, target)
              else exists s :: IsLatest(snapshots, id, target, s) && Totals(r) == FromSnapshot(entries, s, id, target)
  {
    if id == "" || target == 0 {
      return Err(BadRequest);
    }
    if id !in balances {
      return Err(NotFound);
    }
    var start, from := Sides(0, 0), 0;
    if !fromSource {
      var snapshot := MostRecentSnapshot(snapshots, id, target);
      if snapshot.Some? {
        start, from := Sides(snapshot.value.credit, snapshot.value.debit), snapshot.value.time;
        assert IsLatest(snapshots, id, target, snapshot.value);
      }
    }
    var listing := query(from, target);
    ReplayPermuted(listing, Selected(entries, id, from, target), id, start);
    var sides := CalculateBalance(listing, id, start);
    if sides.None? {
      return Err(BadAmount);
    }
    return Ok((sides.value.credit - sides.value.debit, sides.value));
  }

  function Totals(r: Result<(int, Sides), HistoryError>): Option<Sides>
  {
    if r.Ok? then Some(r.value.1) else None
  }

  // ----- the two paths agree

  /** The rows up to `to` are the rows up to `mid` and the rows after it. */
  lemma {:induction false} SelectedSplit(entries: seq<Entry>, id: string, from: int, mid: int, to: int)
    requires from <= mid <= to
    ensures multiset(Selected(entries, id, from, to)) ==
            multiset(Selected(entries, id, from, mid)) + multiset(Selected(entries, id, mid, to))
    decreases |entries|
  {
    if entries != [] {
      SelectedSplit(entries[..|entries| - 1], id, from, mid, to);
    }
  }

  /** From-source totals are the totals at the snapshot's time plus what came after. */
  lemma SourceThroughSnapshot(entries: seq<Entry>, id: string, mid: int, to: int)
    requires 0 <= mid <= to
    ensures FromSource(entries, id, to) ==
            if FromSource(entries, id, mid).None? then None
            else Replay(Selected(entries, id, mid, to), id, FromSource(entries, id, mid).value)
  {
    hide Selected, Sum;
    var zero := Sides(0, 0);
    var before, after := Selected(entries, id, 0, mid), Selected(entries, id, mid, to);
    SelectedSplit(entries, id, 0, mid, to);
    assert multiset(before + after) == multiset(before) + multiset(after);
    ReplayPermuted(Selected(entries, id, 0, to), before + after, id, zero);
    ReplayIsSum(before + after, id, zero);
    ReplayIsSum(before, id, zero);
    SumConcat(before, after, id);
    if FromSource(entries, id, mid).Some? {
      ReplayIsSum(after, id, FromSource(entries, id, mid).value);
    }
  }

  /** The snapshot path and the from-source path give the same answer if and only if the snapshot
      equals the replay of the applied history up to its own time, or an unreadable amount after
      the snapshot makes both fail. */
  lemma PathsAgree(entries: seq<Entry>, s: Snapshot, id: string, to: int)
    requires 0 <= s.time <= to
    ensures FromSnapshot(entries, s, id, to) == FromSource(entries, id, to) <==>
            FromSource(entries, id, s.time) == Some(Sides(s.credit, s.debit)) || !Readable(Selected(entries, id, s.time, to))
  {
    SourceThroughSnapshot(entries, id, s.time, to);
    var after, past := Selected(entries, id, s.time, to), FromSource(entries, id, s.time);
    ReplayIsSum(after, id, Sides(s.credit, s.debit));
    if past.Some? {
      ReplayIsSum(after, id, past.value);
    }
  }

  /** With an unreadable amount in the history both paths fail together if it lies after a
      faithful snapshot; a snapshot hides one that lies before it. */
  lemma FaithfulSnapshotAgrees(entries: seq<Entry>, s: Snapshot, id: string, to: int)
    requires 0 <= s.time <= to
    requires FromSource(entries, id, s.time) == Some(Sides(s.credit, s.debit))
    ensures FromSnapshot(entries, s, id, to) == FromSource(entries, id, to)
  {
    SourceThroughSnapshot(entries, id, s.time, to);
  }

  /** A transfer applied later but dated before a faithful snapshot makes the two paths differ
      from then on. */
  lemma BackdatedEntryDiverges(entries: seq<Entry>, s: Snapshot, id: string, to: int, e: Entry)
    requires 0 <= s.time <= to
    requires FromSource(entries, id, s.time) == Some(Sides(s.credit, s.debit)) && FromSource(entries, id, to).Some?
    requires InRange(e, id, 0, s.time) && e.amount.Some? && e.amount.value != 0
    ensures FromSource(entries + [e], id, to).Some?
    ensures FromSnapshot(entries + [e], s, id, to) != FromSource(entries + [e], id, to)
  {
    hide Selected, Replay, Sum, Readable;
    var more := entries + [e];
    PathsAgree(more, s, id, to);
    SelectedGrows(entries, id, 0, s.time, e);
    SelectedGrows(entries, id, 0, to, e);
    SelectedGrows(entries, id, s.time, to, e);
    ReplayGrows(Selected(entries, id, 0, s.time), id, Sides(0, 0), e);
    ReplayGrows(Selected(entries, id, 0, to), id, Sides(0, 0), e);
    SourceThroughSnapshot(entries, id, s.time, to);
    ReplayIsSum(Selected(entries, id, s.time, to), id, Sides(s.credit, s.debit));
  }

  lemma SelectedGrows(entries: seq<Entry>, id: string, from: int, to: int, e: Entry)
    ensures Selected(entries + [e], id, from, to) ==
            if InRange(e, id, from, to) then Selected(entries, id, from, to) + [e] else Selected(entries, id, from, to)
  {
    assert (entries + [e])[..|entries|] == entries;
  }

  lemma ReplayGrows(entries: seq<Entry>, id: string, start: Sides, e: Entry)
    ensures Replay(entries + [e], id, start) ==
            if Replay(entries, id, start).None? then None else Applied(e, id, Replay(entries, id, start).value)
  {
    assert (entries + [e])[..|entries|] == entries;
  }
}
