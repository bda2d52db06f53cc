/** The versioned balance table: compare-and-set writes, deduplicated and chunked balance sets,
    and the all-or-nothing transaction around them (database/balance.go, database/transaction.go). */
module Store {
  import opened Basics
  import opened Ledger

  datatype Versioned = Versioned(account: Account, version: int)

  type Table = map<string, Versioned>

  const MAX_BALANCES_PER_CHUNK := 1000

  /** Every row to write is still at the version it was read with. */
  predicate Current(rows: Table, writes: Table)
  {
    forall id | id in writes :: id in rows && rows[id].version == writes[id].version
  }

  /** The rows whose version matches get the new counters and the next version. */
  function Written(rows: Table, writes: Table): Table
  {
    map id | id in rows ::
      if id in writes && rows[id].version == writes[id].version
      then Versioned(writes[id].account, rows[id].version + 1) else rows[id]
  }

  /** The whole set is written, or nothing is. */
  function CompareAndSet(rows: Table, writes: Table): Option<Table>
  {
    if Current(rows, writes) then Some(Written(rows, writes)) else None
  }

  // ----- writing balance objects

  /** Equal identifiers are the same object. */
  predicate SameObject(balances: seq<Balance>)
  {
    forall a, b | a in balances && b in balances :: a.id == b.id ==> a == b
  }

  /** What a collection of balance objects asks to write. */
  function Writes(balances: seq<Balance>): Table
    requires SameObject(balances)
    reads balances
  {
    map b | b in balances :: b.id := Versioned(b.View(), b.version)
  }

  lemma WritesSplit(balances: seq<Balance>, k: nat)
    requires k <= |balances| && SameObject(balances)
    ensures SameObject(balances[..k]) && SameObject(balances[k..])
    ensures Writes(balances) == Writes(balances[..k]) + Writes(balances[k..])
  {
    assert forall b :: b in balances <==> b in balances[..k] || b in balances[k..] by {
      assert balances == balances[..k] + balances[k..];
    }
  }

  class Database {
    var rows: Table
    var references: set<string>

    constructor (rows: Table, references: set<string>)
      ensures this.rows == rows && this.references == references
    {
      this.rows, this.references := rows, references;
    }

    /** One compare-and-set row update; on success the object's version follows the row's. */
    method UpdateBalance(b: Balance) returns (ok: bool)
      requires b.Initialized()
      modifies this`rows, b`version
      ensures ok <==> Current(old(rows), old(Writes([b])))
      ensures rows == (if ok then Written(old(rows), old(Writes([b]))) else old(rows))
      ensures b.version == old(b.version) + (if ok then 1 else 0)
    {
      if b.id !in rows || rows[b.id].version != b.version {
        return false;
      }
      rows := rows[b.id := Versioned(b.View(), rows[b.id].version + 1)];
      b.version := b.version + 1;
      return true;
    }

    /** One statement updates every row of the chunk that still matches; the chunk fails unless
        all of them did. */
    method UpdateBalanceChunk(chunk: seq<Balance>) returns (ok: bool)
      requires SameObject(chunk)
      modifies this`rows
      ensures rows == Written(old(rows), Writes(chunk))
      ensures ok <==> Current(old(rows), Writes(chunk))
    {
      var values := Writes(chunk);
      var updated := set id | id in values && id in rows && rows[id].version == values[id].version;
      rows := Written(rows, values);
      for i := 0 to |chunk|
        invariant rows == Written(old(rows), values)
        invariant forall j | 0 <= j < i :: chunk[j].id in updated
      {
        if chunk[i].id !in updated {
          return false;
        }
      }
      return true;
    }

    /** Writes distinct balances chunk by chunk: together one compare-and-set. */
    method UpdateChunks(unique: seq<Balance>) returns (ok: bool)
      requires NoDuplicates(unique) && SameObject(unique)
      modifies this`rows
      ensures ok <==> Current(old(rows), Writes(unique))
      ensures ok ==> rows == Written(old(rows), Writes(unique))
    {
      hide Written, Current, Writes, NoDuplicates, SameObject;
      ghost var before := rows;
      var start := 0;
      NothingWritten(rows, unique[..0]);
      while start < |unique|
        invariant 0 <= start <= |unique| && SameObject(unique[..start])
        invariant Current(before, Writes(unique[..start])) && rows == Written(before, Writes(unique[..start]))
      {
        var end := Min(start + MAX_BALANCES_PER_CHUNK, |unique|);
        ChunkStep(unique, start, end);
        WrittenTwice(before, Writes(unique[..start]), Writes(unique[start..end]));
        var done := UpdateBalanceChunk(unique[start..end]);
        if !done {
          ChunkFails(before, unique, end);
          return false;
        }
        start := end;
      }
      assert unique[..|unique|] == unique;
      return true;
    }

    /** A set of balances is written as one compare-and-set, whatever its duplicates and however
        many chunks it takes; each object's version advances once, and only on success. */
    method UpdateBalanceSet(balances: seq<Balance?>) returns (ok: bool)
      requires SameObject(Present(balances))
      modifies this`rows, Present(balances)`version
      ensures ok <==> Current(old(rows), old(Writes(Present(balances))))
      ensures ok ==> rows == Written(old(rows), old(Writes(Present(balances))))
      ensures forall b | b in Present(balances) :: b.version == old(b.version) + (if ok then 1 else 0)
    {
      hide Written, Current;
      ghost var writes := Writes(Present(balances));
      var unique := Unique(balances);
      assert Writes(unique) == writes;
      ok := UpdateChunks(unique);
      if !ok {
        return;
      }
      assert forall j | 0 <= j < |unique| :: unique[j] in balances;
      for i := 0 to |unique|
        invariant rows == Written(old(rows), writes)
        invariant forall j | 0 <= j < |unique| :: unique[j].version == old(unique[j].version) + (if j < i then 1 else 0)
      {
        unique[i].version := unique[i].version + 1;
      }
    }

    /** Records one transaction with both its balances, or rolls everything back; `completes` tells
        whether the outbox write and the commit succeed. The objects are not rolled back: after a late
        failure their versions run ahead of the rows. */
    method RecordTransactionWithBalances(reference: string, source: Balance, destination: Balance, completes: bool) returns (ok: bool)
      requires source.id != destination.id && source.Initialized() && destination.Initialized()
      modifies this, source`version, destination`version
      ensures ok <==> Current(old(rows), old(Writes([source, destination]))) && reference !in old(references) && completes
      ensures rows == (if ok then Written(old(rows), old(Writes([source, destination]))) else old(rows))
      ensures references == old(references) + (if ok then {reference} else {})
      ensures source.version == old(source.version) + (if Current(old(rows), old(Writes([source]))) then 1 else 0)
      ensures destination.version == old(destination.version)
                + (if Current(old(rows), old(Writes([source, destination]))) then 1 else 0)
    {
      hide Written, Current, Writes;
      var saved := rows;
      ghost var first, second := Writes([source]), Writes([destination]);
      PairWrites(source, destination);
      var done := UpdateBalance(source);
      if !done {
        StalePart(saved, first, second);
        return false;
      }
      WrittenTwice(saved, first, second);
      done := UpdateBalance(destination);
      if !done || reference in references || !completes {
        rows := saved;
        return false;
      }
      references := references + {reference};
      return true;
    }

    /** Records a batch of transactions with every balance they changed, or rolls everything back.
        After a late failure the versions of all objects run ahead of the rows. */
    method RecordTransactionsWithBalanceSet(batch: seq<string>, balances: seq<Balance?>, completes: bool) returns (ok: bool)
      requires SameObject(Present(balances))
      modifies this, Present(balances)`version
      ensures ok <==> Current(old(rows), old(Writes(Present(balances)))) && Recordable(old(references), batch) && completes
      ensures rows == (if ok then Written(old(rows), old(Writes(Present(balances)))) else old(rows))
      ensures references == old(references) + (if ok then set r | r in batch else {})
      ensures forall b | b in Present(balances) ::
                b.version == old(b.version) + (if Current(old(rows), old(Writes(Present(balances)))) then 1 else 0)
    {
      hide Written, Current, Writes;
      var saved := rows;
      var done := UpdateBalanceSet(balances);
      if !done || !Recordable(references, batch) || !completes {
        rows := saved;
        return false;
      }
      references := references + set r | r in batch;
      return true;
    }
  }

  /** The references are new and pairwise different, as the unique index demands. */
  predicate Recordable(known: set<string>, references: seq<string>)
  {
    && (forall r | r in references :: r !in known)
    && (forall i, j | 0 <= i < j < |references| :: references[i] != references[j])
  }

  predicate Wanted(b: Balance?)
  {
    b != null && b.id != ""
  }

  /** The balances that are not nil and have an identifier. */
  function Present(balances: seq<Balance?>): (r: seq<Balance>)
    ensures forall b | b in r :: b in balances && Wanted(b)
    ensures forall b | b in balances && Wanted(b) :: b in r
  {
    if balances == [] then []
    else
      var last := balances[|balances| - 1];
      var front := Present(balances[..|balances| - 1]);
      if Wanted(last) then front + [last] else front
  }

  predicate NoDuplicates(balances: seq<Balance>)
  {
    forall i, j | 0 <= i < j < |balances| :: balances[i] != balances[j]
  }

  /** Keeps the first object of each identifier. */
  method Unique(balances: seq<Balance?>) returns (unique: seq<Balance>)
    requires SameObject(Present(balances))
    ensures NoDuplicates(unique) && SameObject(unique)
    ensures forall b: Balance :: b in unique <==> b in Present(balances)
  {
    var seen: set<string> := {};
    unique := [];
    for i := 0 to |balances|
      invariant NoDuplicates(unique)
      invariant forall b: Balance :: b in unique <==> b in balances[..i] && Wanted(b)
      invariant forall id :: id in seen <==> exists b: Balance :: b in unique && b.id == id
    {
      var b := balances[i];
      assert balances[..i + 1] == balances[..i] + [b];
      if Wanted(b) {
        if b.id !in seen {
          seen := seen + {b.id};
          unique := unique + [b];
        } else {
          assert b in Present(balances);
        }
      }
    }
    assert balances[..|balances|] == balances;
  }

  /** Writing two disjoint sets one after the other is writing their union. */
  lemma WrittenTwice(rows: Table, a: Table, b: Table)
    requires a.Keys !! b.Keys && Current(rows, a)
    ensures Current(Written(rows, a), b) <==> Current(rows, a + b)
    ensures Written(Written(rows, a), b) == Written(rows, a + b)
  {
    var mid := Written(rows, a);
    assert forall id | id in b && id in rows :: mid[id] == rows[id];
    if Current(mid, b) {
      assert Current(rows, a + b);
    } else {
      var id :| id in b && !(id in mid && mid[id].version == b[id].version);
      assert id in a + b;
    }
  }

  lemma PairWrites(a: Balance, b: Balance)
    requires a.id != b.id
    ensures Writes([a, b]) == Writes([a]) + Writes([b])
    ensures Writes([a]).Keys !! Writes([b]).Keys
  {
  }

  lemma StalePart(rows: Table, a: Table, b: Table)
    requires a.Keys !! b.Keys && !Current(rows, a)
    ensures !Current(rows, a + b)
  {
    var id :| id in a && !(id in rows && rows[id].version == a[id].version);
    assert (a + b)[id] == a[id];
  }

  lemma NothingWritten(rows: Table, none: seq<Balance>)
    requires none == []
    ensures SameObject(none) && Current(rows, Writes(none)) && rows == Written(rows, Writes(none))
  {
  }

  /** A stale row in a chunk is a stale row of the set. */
  lemma ChunkFails(rows: Table, unique: seq<Balance>, end: nat)
    requires end <= |unique| && SameObject(unique) && SameObject(unique[..end])
    requires !Current(rows, Writes(unique[..end]))
    ensures !Current(rows, Writes(unique))
  {
    WritesSplit(unique, end);
    var b :| b in unique[..end] && !(b.id in rows && rows[b.id].version == b.version);
    assert b in unique;
    assert b.id in Writes(unique);
  }

  lemma SameObjectSlice(balances: seq<Balance>, i: nat, j: nat)
    requires i <= j <= |balances| && SameObject(balances)
    ensures SameObject(balances[i..j])
  {
    assert forall b | b in balances[i..j] :: b in balances;
  }

  lemma SlicesApart(unique: seq<Balance>, start: nat, end: nat)
    requires start <= end <= |unique| && NoDuplicates(unique) && SameObject(unique)
    ensures forall a, b | a in unique[..start] && b in unique[start..end] :: a.id != b.id
  {
    forall a, b | a in unique[..start] && b in unique[start..end]
      ensures a.id != b.id
    {
      var i :| 0 <= i < start && unique[i] == a;
      var j :| start <= j < end && unique[j] == b;
    }
  }

  /** One more chunk of a set: its writes are new, and the set so far is their union. */
  lemma ChunkStep(unique: seq<Balance>, start: nat, end: nat)
    requires start <= end <= |unique| && NoDuplicates(unique) && SameObject(unique)
    ensures SameObject(unique[..start]) && SameObject(unique[start..end]) && SameObject(unique[..end])
    ensures Writes(unique[..end]) == Writes(unique[..start]) + Writes(unique[start..end])
    ensures Writes(unique[..start]).Keys !! Writes(unique[start..end]).Keys
  {
    SameObjectSlice(unique, 0, end);
    assert unique[0..end] == unique[..end];
    assert unique[..end][..start] == unique[..start] && unique[..end][start..] == unique[start..end];
    WritesSplit(unique[..end], start);
    SlicesApart(unique, start, end);
  }
}
