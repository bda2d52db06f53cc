/** The audit hash chain: batched sealing, checkpoints, and the verifier (database/chain.go). The
    hash is a parameter: the hexadecimal form of SHA-256 over the canonical bytes. */
module Chain {
  import opened Basics
  import opened Canonical

  type Hash = Bytes -> Bytes

  function Genesis(): (b: Bytes)
    ensures Hexadecimal(b)
  {
    seq(64, _ => 48)
  }

  predicate Hexadecimal(b: Bytes)
  {
    forall c | c in b :: 48 <= c <= 57 || 97 <= c <= 102
  }

  ghost predicate HexHash(h: Hash)
  {
    forall x :: Hexadecimal(h(x))
  }

  /** The bytes hashed for a row under a canonical version; other versions are unsupported. */
  function CanonicalBytes(version: int, prev: Bytes, row: ChainRow): Option<Bytes>
  {
    match version
    case 1 => Some(V1(prev, row))
    case 2 => Some(V2(prev, row))
    case 3 => Some(V3(prev, row))
    case _ => None
  }

  function HashVersion(h: Hash, version: int, prev: Bytes, row: ChainRow): Option<Bytes>
  {
    match CanonicalBytes(version, prev, row)
    case None => None
    case Some(b) => Some(h(b))
  }

  // ----- stored data

  datatype Seal = Seal(sequence: int, prev: Bytes, hash: Bytes, version: int)

  datatype Entry = Entry(row: ChainRow, createdAt: int, seal: Option<Seal>)

  datatype Checkpoint = Checkpoint(sequence: int, count: int, head: Bytes)

  /** The transactions by database id, the checkpoint table by its key, and the chain state row. */
  datatype Ledger = Ledger(entries: map<nat, Entry>, checkpoints: map<int, Checkpoint>, lastSeq: nat, head: Bytes)

  // ----- what the chain should be

  /** The next head: the hash of the version 3 bytes of the previous head and the row. */
  function Link(h: Hash, prev: Bytes, row: ChainRow): Bytes
  {
    h(V3(prev, row))
  }

  /** The head after sealing these rows from the genesis value. */
  function Head(h: Hash, rows: seq<ChainRow>): Bytes
  {
    if rows == [] then Genesis()
    else Link(h, Head(h, rows[..|rows| - 1]), rows[|rows| - 1])
  }

  function SealAt(h: Hash, log: seq<ChainRow>, k: nat): Seal
    requires 0 < k <= |log|
  {
    Seal(k, Head(h, log[..k - 1]), Head(h, log[..k]), 3)
  }

  function CheckpointAt(h: Hash, log: seq<ChainRow>, k: nat): Checkpoint
    requires k <= |log|
  {
    Checkpoint(k, k, Head(h, log[..k]))
  }

  ghost predicate SealedInLog(h: Hash, log: seq<ChainRow>, e: Entry)
  {
    e.seal.Some? ==>
      var k := e.seal.value.sequence;
      0 < k <= |log| && e.row == log[k - 1] && e.seal.value == SealAt(h, log, k)
  }

  ghost predicate HasSeal(c: Ledger, id: nat, k: int)
  {
    id in c.entries && c.entries[id].seal.Some? && c.entries[id].seal.value.sequence == k
  }

  ghost predicate Filled(c: Ledger, k: int)
  {
    exists id :: HasSeal(c, id, k)
  }

  /** The stored rows are the result of sealing `log` in order: each sealed row sits at its own
      position with the right links, and no position is missing or shared. */
  ghost predicate Links(h: Hash, c: Ledger, log: seq<ChainRow>)
  {
    && c.lastSeq == |log| && c.head == Head(h, log)
    && (forall id | id in c.entries :: SealedInLog(h, log, c.entries[id]))
    && (forall k | 0 < k <= |log| :: Filled(c, k))
    && (forall k, id, id' | HasSeal(c, id, k) && HasSeal(c, id', k) :: id == id')
  }

  /** Each checkpoint carries the head of the position it names, and the last position has one. */
  ghost predicate Points(h: Hash, c: Ledger, log: seq<ChainRow>)
  {
    && (forall k | k in c.checkpoints :: 0 < k <= |log| && c.checkpoints[k] == CheckpointAt(h, log, k))
    && (log != [] ==> |log| in c.checkpoints)
  }

  ghost predicate Chained(h: Hash, c: Ledger, log: seq<ChainRow>)
  {
    Links(h, c, log) && Points(h, c, log)
  }

  // ----- choosing a batch

  predicate Eligible(c: Ledger, cutoff: int, id: nat)
  {
    id in c.entries && c.entries[id].seal.None? && c.entries[id].createdAt < cutoff
  }

  /** The query result: the first `size` eligible ids in ascending order. */
  ghost predicate IsBatch(c: Ledger, cutoff: int, size: nat, batch: seq<nat>)
  {
    && |batch| <= size
    && (forall i, j | 0 <= i < j < |batch| :: batch[i] < batch[j])
    && (forall id | id in batch :: Eligible(c, cutoff, id))
    && (forall id | Eligible(c, cutoff, id) && id !in batch :: |batch| == size && forall i | 0 <= i < |batch| :: batch[i] < id)
  }

  function RowsOf(c: Ledger, batch: seq<nat>): seq<ChainRow>
    requires forall id | id in batch :: id in c.entries
  {
    seq(|batch|, i requires 0 <= i < |batch| => c.entries[batch[i]].row)
  }

  // ----- sealing

  /** Links one row onto the head. */
  function SealOne(h: Hash, c: Ledger, id: nat): (c': Ledger)
    requires id in c.entries
    ensures c'.entries.Keys == c.entries.Keys
  {
    var next := Link(h, c.head, c.entries[id].row);
    c.(entries := c.entries[id := c.entries[id].(seal := Some(Seal(c.lastSeq + 1, c.head, next, 3)))],
       lastSeq := c.lastSeq + 1, head := next)
  }

  function SealAll(h: Hash, c: Ledger, batch: seq<nat>): (c': Ledger)
    requires forall id | id in batch :: id in c.entries
    ensures c'.entries.Keys == c.entries.Keys
    ensures c'.lastSeq == c.lastSeq + |batch|
  {
    if batch == [] then c else SealOne(h, SealAll(h, c, batch[..|batch| - 1]), batch[|batch| - 1])
  }

  predicate IsCheckpoint(k: int, last: int)
  {
    k % 1000 == 0 || k == last
  }

  function PointAt(h: Hash, c: Ledger, batch: seq<nat>, k: int): Checkpoint
    requires (forall id | id in batch :: id in c.entries) && c.lastSeq <= k <= c.lastSeq + |batch|
  {
    Checkpoint(k, k, SealAll(h, c, batch[..k - c.lastSeq]).head)
  }

  /** The checkpoints a batch writes: every thousandth position and the last. */
  function NewCheckpoints(h: Hash, c: Ledger, batch: seq<nat>): map<int, Checkpoint>
    requires forall id | id in batch :: id in c.entries
  {
    map k | c.lastSeq < k <= c.lastSeq + |batch| && IsCheckpoint(k, c.lastSeq + |batch|) :: PointAt(h, c, batch, k)
  }

  function Sealed(h: Hash, c: Ledger, batch: seq<nat>): Ledger
    requires forall id | id in batch :: id in c.entries
  {
    SealAll(h, c, batch).(checkpoints := c.checkpoints + NewCheckpoints(h, c, batch))
  }

  /** The link written for position j of the batch. */
  function LinkAt(h: Hash, c: Ledger, batch: seq<nat>, j: nat): Seal
    requires (forall id | id in batch :: id in c.entries) && j < |batch|
  {
    Seal(c.lastSeq + j + 1, SealAll(h, c, batch[..j]).head, SealAll(h, c, batch[..j + 1]).head, 3)
  }

  lemma LinkStep(h: Hash, c: Ledger, batch: seq<nat>, j: nat)
    requires (forall id | id in batch :: id in c.entries) && j < |batch|
    ensures
      var prev := SealAll(h, c, batch[..j]).head;
      var next := Link(h, prev, c.entries[batch[j]].row);
      SealAll(h, c, batch[..j + 1]).head == next && LinkAt(h, c, batch, j) == Seal(c.lastSeq + j + 1, prev, next, 3)
  {
    hide Link;
    assert batch[..j + 1][..j] == batch[..j];
    SealAllRow(h, c, batch[..j], batch[j]);
  }

  lemma {:induction false} SealAllStep(h: Hash, c: Ledger, batch: seq<nat>, j: nat)
    requires (forall id | id in batch :: id in c.entries) && j < |batch|
    requires forall i, k | 0 <= i < k < |batch| :: batch[i] < batch[k]
    ensures var before, after := SealAll(h, c, batch[..j]), SealAll(h, c, batch[..j + 1]);
            && after == SealOne(h, before, batch[j])
            && before.entries[batch[j]] == c.entries[batch[j]]
            && after.entries == before.entries[batch[j] := c.entries[batch[j]].(seal := Some(LinkAt(h, c, batch, j)))]
  {
    hide Link;
    assert batch[..j + 1][..j] == batch[..j];
    SealAllKeeps(h, c, batch[..j], batch[j]);
  }

  lemma {:induction false} SealAllKeeps(h: Hash, c: Ledger, batch: seq<nat>, id: nat)
    requires (forall x | x in batch :: x in c.entries) && id in c.entries && id !in batch
    ensures SealAll(h, c, batch).entries[id] == c.entries[id] && SealAll(h, c, batch).checkpoints == c.checkpoints
    decreases |batch|
  {
    hide Link;
    if batch != [] {
      SealAllKeeps(h, c, batch[..|batch| - 1], id);
    }
  }

  class ChainStore {
    const hash: Hash
    var entries: map<nat, Entry>
    var checkpoints: map<int, Checkpoint>
    var lastSeq: nat
    var head: Bytes

    function View(): Ledger
      reads this
    {
      Ledger(entries, checkpoints, lastSeq, head)
    }

    constructor (hash: Hash, ledger: Ledger)
      ensures this.hash == hash && View() == ledger
    {
      this.hash := hash;
      entries, checkpoints, lastSeq, head := ledger.entries, ledger.checkpoints, ledger.lastSeq, ledger.head;
    }

    /** Hashes the batch onto the head. */
    method LinkBatch(batch: seq<nat>) returns (links: seq<Seal>, last: nat, running: Bytes)
      requires forall id | id in batch :: id in entries
      ensures |links| == |batch| && last == lastSeq + |batch| && running == SealAll(hash, View(), batch).head
      ensures forall j | 0 <= j < |batch| :: links[j] == LinkAt(hash, View(), batch, j)
    {
      hide Link, LinkAt, SealAll;
      ghost var c := View();
      links, last, running := [], lastSeq, head;
      NothingSealed(hash, c, batch);
      for i := 0 to |batch|
        invariant |links| == i && last == lastSeq + i && running == SealAll(hash, c, batch[..i]).head
        invariant forall j | 0 <= j < i :: links[j] == LinkAt(hash, c, batch, j)
      {
        LinkStep(hash, c, batch, i);
        var prev := running;
        running := Link(hash, prev, entries[batch[i]].row);
        last := last + 1;
        links := links + [Seal(last, prev, running, 3)];
      }
      assert batch[..|batch|] == batch;
    }

    /** Writes the links and the due checkpoints; false if a checkpoint key is already taken. */
    method WriteLinks(batch: seq<nat>, links: seq<Seal>, last: nat)
      returns (ok: bool, updated: map<nat, Entry>, points: map<int, Checkpoint>)
      requires forall id | id in batch :: id in entries && entries[id].seal.None?
      requires forall i, j | 0 <= i < j < |batch| :: batch[i] < batch[j]
      requires |links| == |batch| && last == lastSeq + |batch|
      requires forall j | 0 <= j < |batch| :: links[j] == LinkAt(hash, View(), batch, j)
      ensures ok <==> checkpoints.Keys !! NewCheckpoints(hash, View(), batch).Keys
      ensures ok ==> updated == SealAll(hash, View(), batch).entries
      ensures ok ==> points == checkpoints + NewCheckpoints(hash, View(), batch)
    {
      hide Link, SealAll, NewCheckpoints, CheckpointsUpTo;
      ghost var c := View();
      NothingSealed(hash, c, batch);
      AllCheckpoints(hash, c, batch);
      updated, points := entries, checkpoints;
      for i := 0 to |batch|
        invariant updated == SealAll(hash, c, batch[..i]).entries
        invariant points == checkpoints + CheckpointsUpTo(hash, c, batch, i)
        invariant checkpoints.Keys !! CheckpointsUpTo(hash, c, batch, i).Keys
      {
        SealAllStep(hash, c, batch, i);
        CheckpointStep(hash, c, batch, i);
        if updated[batch[i]].seal.None? {
          updated := updated[batch[i] := updated[batch[i]].(seal := Some(links[i]))];
        }
        var position := links[i].sequence;
        if IsCheckpoint(position, last) {
          if position in points {
            CheckpointTaken(hash, c, batch, i);
            return false, updated, points;
          }
          points := points[position := Checkpoint(position, position, links[i].hash)];
        }
      }
      assert batch[..|batch|] == batch;
      ok := true;
    }

    /** Seals one batch in a single database transaction. A checkpoint whose key is already taken
        aborts it and nothing changes. */
    method ChainPendingTransactions(ghost cutoff: int, batchSize: int, batch: seq<nat>) returns (r: Option<nat>)
      requires batchSize > 0 ==> IsBatch(View(), cutoff, batchSize, batch)
      modifies this
      ensures batchSize <= 0 ==> r.None?
      ensures batchSize > 0 ==> (r.Some? <==> old(checkpoints).Keys !! NewCheckpoints(hash, old(View()), batch).Keys)
      ensures r.None? ==> View() == old(View())
      ensures r.Some? ==> r.value == |batch| && View() == Sealed(hash, old(View()), batch)
    {
      if batchSize <= 0 {
        return None;
      }
      hide Link, SealAll, LinkAt, NewCheckpoints;
      var links, last, running := LinkBatch(batch);
      var ok, updated, points := WriteLinks(batch, links, last);
      if !ok {
        return None;
      }
      SealAllCheckpoints(hash, View(), batch);
      entries, checkpoints, lastSeq, head := updated, points, last, running;
      return Some(|batch|);
    }
  }

  /** A due position that is already a key is a position the batch would write. */
  lemma CheckpointTaken(h: Hash, c: Ledger, batch: seq<nat>, i: nat)
    requires (forall id | id in batch :: id in c.entries) && i < |batch|
    requires var k := c.lastSeq + i + 1;
             IsCheckpoint(k, c.lastSeq + |batch|) && k in c.checkpoints + CheckpointsUpTo(h, c, batch, i)
    ensures !(c.checkpoints.Keys !! NewCheckpoints(h, c, batch).Keys)
  {
    hide SealAll;
    var k := c.lastSeq + i + 1;
    assert k in NewCheckpoints(h, c, batch);
    assert k !in CheckpointsUpTo(h, c, batch, i);
  }

  lemma {:induction false} SealAllRow(h: Hash, c: Ledger, batch: seq<nat>, id: nat)
    requires (forall x | x in batch :: x in c.entries) && id in c.entries
    ensures SealAll(h, c, batch).entries[id].row == c.entries[id].row
    ensures SealAll(h, c, batch).entries[id].createdAt == c.entries[id].createdAt
    decreases |batch|
  {
    hide Link;
    if batch != [] {
      SealAllRow(h, c, batch[..|batch| - 1], id);
    }
  }

  lemma {:induction false} SealAllCheckpoints(h: Hash, c: Ledger, batch: seq<nat>)
    requires forall x | x in batch :: x in c.entries
    ensures SealAll(h, c, batch).checkpoints == c.checkpoints
    decreases |batch|
  {
    hide Link;
    if batch != [] {
      SealAllCheckpoints(h, c, batch[..|batch| - 1]);
    }
  }

  /** The checkpoints of the first n positions of the batch. */
  function CheckpointsUpTo(h: Hash, c: Ledger, batch: seq<nat>, n: nat): map<int, Checkpoint>
    requires (forall id | id in batch :: id in c.entries) && n <= |batch|
  {
    map k | c.lastSeq < k <= c.lastSeq + n && IsCheckpoint(k, c.lastSeq + |batch|) :: PointAt(h, c, batch, k)
  }

  lemma CheckpointStep(h: Hash, c: Ledger, batch: seq<nat>, i: nat)
    requires (forall id | id in batch :: id in c.entries) && i < |batch|
    ensures var k := c.lastSeq + i + 1;
            CheckpointsUpTo(h, c, batch, i + 1) ==
              if IsCheckpoint(k, c.lastSeq + |batch|)
              then CheckpointsUpTo(h, c, batch, i)[k := Checkpoint(k, k, LinkAt(h, c, batch, i).hash)]
              else CheckpointsUpTo(h, c, batch, i)
  {
    hide SealAll;
  }

  lemma NothingSealed(h: Hash, c: Ledger, batch: seq<nat>)
    requires forall id | id in batch :: id in c.entries
    ensures SealAll(h, c, batch[..0]) == c && CheckpointsUpTo(h, c, batch, 0) == map[]
  {
  }

  lemma AllCheckpoints(h: Hash, c: Ledger, batch: seq<nat>)
    requires forall id | id in batch :: id in c.entries
    ensures CheckpointsUpTo(h, c, batch, |batch|) == NewCheckpoints(h, c, batch)
  {
  }

  // ----- sealing keeps the chain

  /** Positions already sealed do not change when the log grows. */
  lemma LogGrows(h: Hash, log: seq<ChainRow>, more: seq<ChainRow>, k: nat)
    requires k <= |log|
    ensures (log + more)[..k] == log[..k]
    ensures k > 0 ==> SealAt(h, log + more, k) == SealAt(h, log, k)
  {
    hide Head;
    assert (log + more)[..k] == log[..k];
    if k > 0 {
      assert (log + more)[..k - 1] == log[..k - 1];
    }
  }

  lemma HeadGrows(h: Hash, log: seq<ChainRow>, row: ChainRow)
    ensures Head(h, log + [row]) == Link(h, Head(h, log), row)
  {
    hide Link;
    assert (log + [row])[..|log|] == log;
  }

  lemma SealOneLinks(h: Hash, c: Ledger, log: seq<ChainRow>, id: nat)
    requires Links(h, c, log) && id in c.entries && c.entries[id].seal.None?
    ensures Links(h, SealOne(h, c, id), log + [c.entries[id].row])
  {
    hide Link, Head;
    var row := c.entries[id].row;
    var c', log' := SealOne(h, c, id), log + [row];
    HeadGrows(h, log, row);
    assert log'[..|log|] == log && log'[..|log'|] == log';
    forall x | x in c'.entries
      ensures SealedInLog(h, log', c'.entries[x])
    {
      if x != id && c.entries[x].seal.Some? {
        assert SealedInLog(h, log, c.entries[x]);
        LogGrows(h, log, [row], c.entries[x].seal.value.sequence);
      }
    }
    assert forall x | x in c.entries && x != id :: SealedInLog(h, log, c.entries[x]);
    forall k | 0 < k <= |log'|
      ensures Filled(c', k)
    {
      if k == |log'| {
        assert HasSeal(c', id, k);
      } else {
        assert Filled(c, k);
        var x :| HasSeal(c, x, k);
        assert HasSeal(c', x, k);
      }
    }
    forall k, x, y | HasSeal(c', x, k) && HasSeal(c', y, k)
      ensures x == y
    {
      assert x != id ==> HasSeal(c, x, k);
      assert y != id ==> HasSeal(c, y, k);
    }
  }

  predicate Sealable(c: Ledger, batch: seq<nat>)
  {
    && (forall id | id in batch :: id in c.entries && c.entries[id].seal.None?)
    && (forall i, j | 0 <= i < j < |batch| :: batch[i] < batch[j])
  }

  lemma {:induction false} SealAllLinks(h: Hash, c: Ledger, log: seq<ChainRow>, batch: seq<nat>)
    requires Links(h, c, log) && Sealable(c, batch)
    ensures Links(h, SealAll(h, c, batch), log + RowsOf(c, batch))
    decreases |batch|
  {
    hide Links, SealOne;
    if batch == [] {
      assert log + RowsOf(c, batch) == log;
    } else {
      var n := |batch| - 1;
      var front, id := batch[..n], batch[n];
      SealAllLinks(h, c, log, front);
      SealAllKeeps(h, c, front, id);
      SealOneLinks(h, SealAll(h, c, front), log + RowsOf(c, front), id);
      assert (log + RowsOf(c, front)) + [c.entries[id].row] == log + RowsOf(c, batch);
    }
  }

  /** A batch never writes a checkpoint that already exists, so sealing never aborts. */
  lemma CheckpointsNeverCollide(h: Hash, c: Ledger, log: seq<ChainRow>, batch: seq<nat>)
    requires Chained(h, c, log) && Sealable(c, batch)
    ensures c.checkpoints.Keys !! NewCheckpoints(h, c, batch).Keys
  {
    hide SealAll, Head;
  }

  lemma NewPoint(h: Hash, c: Ledger, log: seq<ChainRow>, batch: seq<nat>, k: int)
    requires Links(h, c, log) && Sealable(c, batch) && c.lastSeq < k <= c.lastSeq + |batch|
    ensures PointAt(h, c, batch, k) == CheckpointAt(h, log + RowsOf(c, batch), k)
  {
    hide Head, SealAll, SealedInLog, Filled;
    var front := batch[..k - c.lastSeq];
    SealAllLinks(h, c, log, front);
    assert (log + RowsOf(c, batch))[..k] == log + RowsOf(c, front);
  }

  lemma SealedLinks(h: Hash, c: Ledger, log: seq<ChainRow>, batch: seq<nat>)
    requires Links(h, c, log) && Sealable(c, batch)
    ensures Links(h, Sealed(h, c, batch), log + RowsOf(c, batch))
  {
    hide Links, SealAll, NewCheckpoints;
    SealAllLinks(h, c, log, batch);
    LinksIgnoreCheckpoints(h, SealAll(h, c, batch), log + RowsOf(c, batch), Sealed(h, c, batch).checkpoints);
  }

  lemma SealedPoints(h: Hash, c: Ledger, log: seq<ChainRow>, batch: seq<nat>)
    requires Links(h, c, log) && Points(h, c, log) && Sealable(c, batch)
    ensures Points(h, Sealed(h, c, batch), log + RowsOf(c, batch))
  {
    hide Head, SealAll, Links;
    var c', log' := Sealed(h, c, batch), log + RowsOf(c, batch);
    LastSeqIsLength(h, c, log);
    forall k | k in c'.checkpoints
      ensures 0 < k <= |log'| && c'.checkpoints[k] == CheckpointAt(h, log', k)
    {
      if k in NewCheckpoints(h, c, batch) {
        NewPoint(h, c, log, batch, k);
      } else {
        LogGrows(h, log, RowsOf(c, batch), k);
      }
    }
    if batch == [] {
      assert log' == log;
    } else {
      var k := c.lastSeq + |batch|;
      assert IsCheckpoint(k, c.lastSeq + |batch|);
      assert PointAt(h, c, batch, k) == NewCheckpoints(h, c, batch)[k];
    }
  }

  /** Sealing a batch extends the sealed log by exactly the batch's rows, in order. */
  lemma SealKeepsChained(h: Hash, c: Ledger, log: seq<ChainRow>, batch: seq<nat>)
    requires Chained(h, c, log) && Sealable(c, batch)
    ensures Chained(h, Sealed(h, c, batch), log + RowsOf(c, batch))
  {
    hide Links, Points, Sealed;
    SealedLinks(h, c, log, batch);
    SealedPoints(h, c, log, batch);
  }

  lemma LastSeqIsLength(h: Hash, c: Ledger, log: seq<ChainRow>)
    requires Links(h, c, log)
    ensures c.lastSeq == |log|
  {
  }

  lemma LinksIgnoreCheckpoints(h: Hash, c: Ledger, log: seq<ChainRow>, checkpoints: map<int, Checkpoint>)
    requires Links(h, c, log)
    ensures Links(h, c.(checkpoints := checkpoints), log)
  {
    hide Head;
    var c' := c.(checkpoints := checkpoints);
    forall k | 0 < k <= |log|
      ensures Filled(c', k)
    {
      assert Filled(c, k);
      var x :| HasSeal(c, x, k);
      assert HasSeal(c', x, k);
    }
    forall k, x, y | HasSeal(c', x, k) && HasSeal(c', y, k)
      ensures x == y
    {
      assert HasSeal(c, x, k) && HasSeal(c, y, k);
    }
  }

  // ----- whole runs

  datatype Step =
    | Insert(id: nat, row: ChainRow, createdAt: int)
    | SealBatch(cutoff: int, size: nat, batch: seq<nat>)

  /** New rows arrive unsealed; a batch is what the query returned, or the step does nothing. */
  ghost function Apply(h: Hash, c: Ledger, step: Step): Ledger
  {
    match step
    case Insert(id, row, createdAt) =>
      if id in c.entries then c else c.(entries := c.entries[id := Entry(row, createdAt, None)])
    case SealBatch(cutoff, size, batch) =>
      if IsBatch(c, cutoff, size, batch) && c.checkpoints.Keys !! NewCheckpoints(h, c, batch).Keys
      then Sealed(h, c, batch) else c
  }

  ghost function Run(h: Hash, c: Ledger, steps: seq<Step>): Ledger
  {
    if steps == [] then c else Apply(h, Run(h, c, steps[..|steps| - 1]), steps[|steps| - 1])
  }

  function Empty(): Ledger
  {
    Ledger(map[], map[], 0, Genesis())
  }

  lemma BatchIsSealable(c: Ledger, cutoff: int, size: nat, batch: seq<nat>)
    requires IsBatch(c, cutoff, size, batch)
    ensures Sealable(c, batch)
  {
  }

  lemma InsertKeepsChained(h: Hash, c: Ledger, log: seq<ChainRow>, id: nat, e: Entry)
    requires Chained(h, c, log) && id !in c.entries && e.seal.None?
    ensures Chained(h, c.(entries := c.entries[id := e]), log)
  {
    hide Head;
    var c' := c.(entries := c.entries[id := e]);
    forall k | 0 < k <= |log|
      ensures Filled(c', k)
    {
      assert Filled(c, k);
      var x :| HasSeal(c, x, k);
      assert HasSeal(c', x, k);
    }
    forall k, x, y | HasSeal(c', x, k) && HasSeal(c', y, k)
      ensures x == y
    {
      assert HasSeal(c, x, k) && HasSeal(c, y, k);
    }
  }

  /** One step extends the sealed log, by nothing or by the batch just sealed, and keeps every
      checkpoint already written. */
  lemma {:induction false} ApplyKeepsChained(h: Hash, c: Ledger, log: seq<ChainRow>, step: Step) returns (more: seq<ChainRow>)
    requires Chained(h, c, log)
    ensures Chained(h, Apply(h, c, step), log + more)
    ensures forall k | k in c.checkpoints :: k in Apply(h, c, step).checkpoints && Apply(h, c, step).checkpoints[k] == c.checkpoints[k]
  {
    hide Chained, SealAll, IsBatch;
    more := [];
    assert log + more == log;
    match step
    case Insert(id, row, createdAt) =>
      if id !in c.entries {
        InsertKeepsChained(h, c, log, id, Entry(row, createdAt, None));
      }
    case SealBatch(cutoff, size, batch) =>
      if IsBatch(c, cutoff, size, batch) {
        BatchIsSealable(c, cutoff, size, batch);
        CheckpointsNeverCollide(h, c, log, batch);
        SealKeepsChained(h, c, log, batch);
        more := RowsOf(c, batch);
      }
  }

  /** After any sequence of arrivals and batches, of any sizes and cutoffs, the stored data is a
      chain over the rows sealed so far; each prefix of the run sealed a prefix of that log, and
      its checkpoints are still there. */
  lemma {:induction false} RunKeepsChained(h: Hash, c: Ledger, log: seq<ChainRow>, steps: seq<Step>) returns (more: seq<ChainRow>)
    requires Chained(h, c, log)
    ensures Chained(h, Run(h, c, steps), log + more)
    ensures forall k | k in c.checkpoints :: k in Run(h, c, steps).checkpoints && Run(h, c, steps).checkpoints[k] == c.checkpoints[k]
    decreases |steps|
  {
    hide Chained, Apply;
    if steps == [] {
      more := [];
      assert log + more == log;
    } else {
      var front := RunKeepsChained(h, c, log, steps[..|steps| - 1]);
      var last := ApplyKeepsChained(h, Run(h, c, steps[..|steps| - 1]), log + front, steps[|steps| - 1]);
      more := front + last;
      assert (log + front) + last == log + more;
    }
  }

  lemma EmptyIsChained(h: Hash)
    ensures Chained(h, Empty(), [])
  {
  }

  // ----- one batch or several

  lemma {:induction false} SealAllTwice(h: Hash, c: Ledger, a: seq<nat>, b: seq<nat>)
    requires forall id | id in a + b :: id in c.entries
    ensures forall id | id in a :: id in a + b
    ensures forall id | id in b :: id in a + b
    ensures SealAll(h, c, a + b) == SealAll(h, SealAll(h, c, a), b)
    decreases |b|
  {
    hide SealOne;
    assert forall id | id in a :: id in a + b;
    assert forall id | id in b :: id in a + b;
    if b == [] {
      assert a + b == a;
    } else {
      var n := |b| - 1;
      assert (a + b)[..|a + b| - 1] == a + b[..n];
      SealAllTwice(h, c, a, b[..n]);
    }
  }

  lemma {:induction false} SealAllWithCheckpoints(h: Hash, c: Ledger, points: map<int, Checkpoint>, batch: seq<nat>)
    requires forall id | id in batch :: id in c.entries
    ensures SealAll(h, c.(checkpoints := points), batch) == SealAll(h, c, batch).(checkpoints := points)
    decreases |batch|
  {
    hide Link;
    if batch != [] {
      assert c.(checkpoints := points).entries == c.entries;
      SealAllWithCheckpoints(h, c, points, batch[..|batch| - 1]);
    }
  }

  lemma {:induction false} SealAllSeals(h: Hash, c: Ledger, batch: seq<nat>, id: nat)
    requires (forall x | x in batch :: x in c.entries) && id in c.entries
    ensures SealAll(h, c, batch).entries[id].seal.None? <==> c.entries[id].seal.None? && id !in batch
    ensures SealAll(h, c, batch).entries[id].createdAt == c.entries[id].createdAt
    decreases |batch|
  {
    hide Link;
    if batch != [] {
      var n := |batch| - 1;
      SealAllSeals(h, c, batch[..n], id);
      assert batch == batch[..n] + [batch[n]];
    }
  }

  /** The first part of a batch is the batch of the smaller size, and the rest is what the query
      returns next. */
  lemma BatchSplits(h: Hash, c: Ledger, cutoff: int, n: nat, m: nat, a: seq<nat>, b: seq<nat>)
    requires IsBatch(c, cutoff, n + m, a + b) && |a| == Min(n, |a + b|)
    ensures IsBatch(c, cutoff, n, a)
    ensures Sealable(c, a + b) && IsBatch(Sealed(h, c, a), cutoff, m, b)
  {
    hide SealAll, NewCheckpoints;
    var batch := a + b;
    assert forall id | id in a :: id in batch;
    assert forall id | id in b :: id in batch;
    assert forall i | 0 <= i < |a| :: batch[i] == a[i];
    assert forall i | 0 <= i < |b| :: batch[|a| + i] == b[i];
    forall id | id in c.entries
      ensures Eligible(Sealed(h, c, a), cutoff, id) <==> Eligible(c, cutoff, id) && id !in a
    {
      SealAllSeals(h, c, a, id);
    }
    assert Sealed(h, c, a).entries.Keys == c.entries.Keys;
    assert forall id | id in b :: id !in a;
  }

  lemma SplitLinks(h: Hash, c: Ledger, a: seq<nat>, b: seq<nat>)
    requires (forall id | id in a + b :: id in c.entries) && (forall id | id in a :: id in c.entries)
    requires forall id | id in b :: id in c.entries
    ensures SealAll(h, Sealed(h, c, a), b) == SealAll(h, c, a + b).(checkpoints := Sealed(h, c, a).checkpoints)
  {
    hide SealAll, NewCheckpoints;
    SealAllTwice(h, c, a, b);
    SealAllWithCheckpoints(h, SealAll(h, c, a), Sealed(h, c, a).checkpoints, b);
  }

  lemma PointAcrossSeam(h: Hash, c: Ledger, a: seq<nat>, b: seq<nat>, k: int)
    requires (forall id | id in a + b :: id in c.entries) && (forall id | id in a :: id in c.entries)
    requires (forall id | id in b :: id in c.entries) && c.lastSeq + |a| < k <= c.lastSeq + |a + b|
    ensures PointAt(h, Sealed(h, c, a), b, k) == PointAt(h, c, a + b, k)
  {
    hide SealAll, NewCheckpoints;
    var j := k - c.lastSeq - |a|;
    assert (a + b)[..k - c.lastSeq] == a + b[..j];
    assert forall id | id in a + b[..j] :: id in a + b;
    SplitLinks(h, c, a, b[..j]);
  }

  lemma NewCheckpointAt(h: Hash, c: Ledger, batch: seq<nat>, k: int)
    requires forall id | id in batch :: id in c.entries
    ensures k in NewCheckpoints(h, c, batch) <==>
            c.lastSeq < k <= c.lastSeq + |batch| && (k % 1000 == 0 || k == c.lastSeq + |batch|)
    ensures k in NewCheckpoints(h, c, batch) ==> NewCheckpoints(h, c, batch)[k] == PointAt(h, c, batch, k)
  {
    hide SealAll, PointAt;
    assert c.lastSeq < k <= c.lastSeq + |batch| ==> PointAt(h, c, batch, k) == PointAt(h, c, batch, k);
  }

  lemma SplitPoints(h: Hash, c: Ledger, a: seq<nat>, b: seq<nat>)
    requires (forall id | id in a + b :: id in c.entries) && (forall id | id in a :: id in c.entries)
    requires (forall id | id in b :: id in c.entries) && a != [] && b != []
    ensures var seam := c.lastSeq + |a|;
            NewCheckpoints(h, c, a) + NewCheckpoints(h, Sealed(h, c, a), b) ==
            NewCheckpoints(h, c, a + b)[seam := PointAt(h, c, a, seam)]
  {
    hide SealAll, NewCheckpoints;
    var first, seam := Sealed(h, c, a), c.lastSeq + |a|;
    var parts, whole := NewCheckpoints(h, c, a) + NewCheckpoints(h, first, b), NewCheckpoints(h, c, a + b);
    forall k
      ensures k in parts <==> k in whole[seam := PointAt(h, c, a, seam)]
      ensures k in parts ==> parts[k] == whole[seam := PointAt(h, c, a, seam)][k]
    {
      NewCheckpointAt(h, c, a, k);
      NewCheckpointAt(h, first, b, k);
      NewCheckpointAt(h, c, a + b, k);
      if seam < k <= seam + |b| {
        PointAcrossSeam(h, c, a, b, k);
      } else if c.lastSeq < k <= seam {
        assert (a + b)[..k - c.lastSeq] == a[..k - c.lastSeq];
      }
    }
  }

  /** Sealing in two batches instead of one changes nothing but the checkpoints: the same rows get
      the same links, the head and the sequence are the same, and the checkpoints are those of the
      single batch and one more at the seam. */
  lemma SplitSealsTheSame(h: Hash, c: Ledger, a: seq<nat>, b: seq<nat>)
    requires (forall id | id in a + b :: id in c.entries) && (forall id | id in a :: id in c.entries)
    requires (forall id | id in b :: id in c.entries) && a != [] && b != []
    ensures var seam := c.lastSeq + |a|;
            var whole := Sealed(h, c, a + b);
            Sealed(h, Sealed(h, c, a), b) == whole.(checkpoints := whole.checkpoints[seam := PointAt(h, c, a, seam)])
  {
    hide SealAll, NewCheckpoints, PointAt;
    SplitLinks(h, c, a, b);
    SplitPoints(h, c, a, b);
    var first, seam := Sealed(h, c, a), c.lastSeq + |a|;
    SeamOfMaps(c.checkpoints, NewCheckpoints(h, c, a), NewCheckpoints(h, first, b), NewCheckpoints(h, c, a + b),
               seam, PointAt(h, c, a, seam));
  }

  lemma SeamOfMaps(m: map<int, Checkpoint>, x: map<int, Checkpoint>, y: map<int, Checkpoint>, w: map<int, Checkpoint>,
                   seam: int, v: Checkpoint)
    requires x + y == w[seam := v]
    ensures (m + x) + y == (m + w)[seam := v]
  {
    assert (m + x) + y == m + (x + y);
    assert m + w[seam := v] == (m + w)[seam := v];
  }

  // ----- any number of batches

  function Flat(parts: seq<seq<nat>>): seq<nat>
  {
    if parts == [] then [] else Flat(parts[..|parts| - 1]) + parts[|parts| - 1]
  }

  /** One sealing run per part: full batches of the part's size, and the rest of the size last. */
  function PartSteps(cutoff: int, size: nat, parts: seq<seq<nat>>): seq<Step>
    requires parts != [] && |Flat(parts)| <= size
  {
    var front, last := parts[..|parts| - 1], parts[|parts| - 1];
    if front == [] then [SealBatch(cutoff, size, last)]
    else PartSteps(cutoff, |Flat(front)|, front) + [SealBatch(cutoff, size - |Flat(front)|, last)]
  }

  /** A position where one part ends and the next begins. */
  ghost predicate IsSeam(start: int, parts: seq<seq<nat>>, k: int)
  {
    exists i | 0 < i < |parts| :: k == start + |Flat(parts[..i])|
  }

  /** many is whole with one more checkpoint at each seam. */
  ghost predicate SameButSeams(start: int, parts: seq<seq<nat>>, whole: Ledger, many: Ledger)
  {
    && many == whole.(checkpoints := many.checkpoints)
    && (forall k | k in whole.checkpoints :: k in many.checkpoints && many.checkpoints[k] == whole.checkpoints[k])
    && (forall k :: k in many.checkpoints <==> k in whole.checkpoints || IsSeam(start, parts, k))
  }

  lemma SeamsGrow(start: int, parts: seq<seq<nat>>, k: int)
    requires |parts| > 1
    ensures IsSeam(start, parts, k) <==>
      IsSeam(start, parts[..|parts| - 1], k) || k == start + |Flat(parts[..|parts| - 1])|
  {
    var front := parts[..|parts| - 1];
    assert forall i | 0 <= i <= |front| :: parts[..i] == front[..i];
    assert front[..|front|] == front;
  }

  lemma SealedIgnoresCheckpoints(h: Hash, c: Ledger, points: map<int, Checkpoint>, batch: seq<nat>)
    requires forall id | id in batch :: id in c.entries
    ensures NewCheckpoints(h, c.(checkpoints := points), batch) == NewCheckpoints(h, c, batch)
    ensures Sealed(h, c.(checkpoints := points), batch) ==
            Sealed(h, c, batch).(checkpoints := points + NewCheckpoints(h, c, batch))
  {
    hide SealAll, NewCheckpoints;
    var other := c.(checkpoints := points);
    forall k ensures k in NewCheckpoints(h, other, batch) <==> k in NewCheckpoints(h, c, batch)
      ensures k in NewCheckpoints(h, c, batch) ==> NewCheckpoints(h, other, batch)[k] == NewCheckpoints(h, c, batch)[k]
    {
      NewCheckpointAt(h, c, batch, k);
      NewCheckpointAt(h, other, batch, k);
      if c.lastSeq < k <= c.lastSeq + |batch| {
        SealAllWithCheckpoints(h, c, points, batch[..k - c.lastSeq]);
      }
    }
    SealAllWithCheckpoints(h, c, points, batch);
  }

  /** The checkpoint of the single batch at the seam, if it has one, is that of the first part. */
  lemma SeamPointIsSame(h: Hash, c: Ledger, log: seq<ChainRow>, a: seq<nat>, b: seq<nat>)
    requires Chained(h, c, log) && (forall id | id in a + b :: id in c.entries) && (forall id | id in a :: id in c.entries) && a != []
    ensures var seam := c.lastSeq + |a|;
      seam in Sealed(h, c, a + b).checkpoints ==> Sealed(h, c, a + b).checkpoints[seam] == PointAt(h, c, a, seam)
  {
    hide SealAll, NewCheckpoints, Links;
    var seam := c.lastSeq + |a|;
    NewCheckpointAt(h, c, a + b, seam);
    assert (a + b)[..|a|] == a && a[..|a|] == a;
    LastSeqIsLength(h, c, log);
    assert seam !in c.checkpoints;
  }

  /** Sealing two parts after the first was itself sealed in parts. */
  lemma OneMorePart(h: Hash, c: Ledger, log: seq<ChainRow>, parts: seq<seq<nat>>, first: Ledger)
    requires Chained(h, c, log) && |parts| > 1
    requires var front := parts[..|parts| - 1]; Flat(front) != [] && parts[|parts| - 1] != []
    requires forall id | id in Flat(parts) :: id in c.entries
    requires var front := parts[..|parts| - 1];
      (forall id | id in Flat(front) :: id in c.entries) && SameButSeams(c.lastSeq, front, Sealed(h, c, Flat(front)), first)
    requires forall id | id in parts[|parts| - 1] :: id in first.entries
    ensures SameButSeams(c.lastSeq, parts, Sealed(h, c, Flat(parts)), Sealed(h, first, parts[|parts| - 1]))
  {
    hide SealAll, NewCheckpoints, PointAt, Chained, IsSeam, Flat;
    var a, b := Flat(parts[..|parts| - 1]), parts[|parts| - 1];
    assert Flat(parts) == a + b by { FlatLast(parts); }
    var one, seam := Sealed(h, c, a), c.lastSeq + |a|;
    assert one.entries.Keys == c.entries.Keys;
    SealedIgnoresCheckpoints(h, one, first.checkpoints, b);
    SplitSealsTheSame(h, c, a, b);
    SeamPointIsSame(h, c, log, a, b);
    assert Sealed(h, one, b).checkpoints == one.checkpoints + NewCheckpoints(h, one, b);
    SeamUnion(one.checkpoints, NewCheckpoints(h, one, b), first.checkpoints, Sealed(h, c, a + b).checkpoints, seam, PointAt(h, c, a, seam));
    forall k ensures IsSeam(c.lastSeq, parts, k) <==> IsSeam(c.lastSeq, parts[..|parts| - 1], k) || k == seam {
      SeamsGrow(c.lastSeq, parts, k);
    }
    assert first == one.(checkpoints := first.checkpoints);
    assert Sealed(h, first, b) == Sealed(h, one, b).(checkpoints := first.checkpoints + NewCheckpoints(h, one, b));
  }

  lemma SeamUnion(one: map<int, Checkpoint>, added: map<int, Checkpoint>, first: map<int, Checkpoint>, whole: map<int, Checkpoint>,
                  seam: int, v: Checkpoint)
    requires one + added == whole[seam := v] && (seam in whole ==> whole[seam] == v)
    requires forall k | k in one :: k in first && first[k] == one[k]
    ensures forall k | k in whole :: k in first + added && (first + added)[k] == whole[k]
    ensures forall k :: k in first + added <==> k in whole || k == seam || k in first
  {
    forall k | k in whole[seam := v] ensures k in first + added && (first + added)[k] == whole[seam := v][k] {
      assert k in one + added && (one + added)[k] == whole[seam := v][k];
    }
  }

  lemma FlatLast(parts: seq<seq<nat>>)
    requires parts != []
    ensures Flat(parts) == Flat(parts[..|parts| - 1]) + parts[|parts| - 1]
  {
  }

  lemma FlatNonEmpty(parts: seq<seq<nat>>)
    requires parts != [] && parts[|parts| - 1] != []
    ensures Flat(parts) != []
  {
  }

  lemma OnePartRun(h: Hash, c: Ledger, cutoff: int, size: nat, parts: seq<seq<nat>>)
    requires |parts| == 1 && IsBatch(c, cutoff, size, Flat(parts)) && Sealable(c, Flat(parts))
    requires c.checkpoints.Keys !! NewCheckpoints(h, c, Flat(parts)).Keys
    ensures SameButSeams(c.lastSeq, parts, Sealed(h, c, Flat(parts)), Run(h, c, PartSteps(cutoff, size, parts)))
  {
    hide Sealed, NewCheckpoints, Sealable, Eligible;
    var b := parts[0];
    assert parts[..0] == [] && Flat(parts) == [] + b == b;
    var step := SealBatch(cutoff, size, b);
    assert PartSteps(cutoff, size, parts) == [step] && [step][..0] == [];
    assert Run(h, c, []) == c;
    assert forall k :: !IsSeam(c.lastSeq, parts, k);
  }

  lemma SameBatch(c: Ledger, d: Ledger, cutoff: int, size: nat, batch: seq<nat>)
    requires IsBatch(c, cutoff, size, batch) && d.entries == c.entries
    ensures IsBatch(d, cutoff, size, batch)
  {
    assert forall id :: Eligible(d, cutoff, id) <==> Eligible(c, cutoff, id);
  }

  lemma LastPart(h: Hash, c: Ledger, log: seq<ChainRow>, cutoff: int, size: nat, parts: seq<seq<nat>>)
    requires Chained(h, c, log) && |parts| > 1 && |Flat(parts)| <= size
    requires var front := parts[..|parts| - 1]; Flat(front) != [] && parts[|parts| - 1] != []
    requires forall id | id in Flat(parts) :: id in c.entries
    requires var front := parts[..|parts| - 1];
      && (forall id | id in Flat(front) :: id in c.entries) && |Flat(front)| <= size
      && IsBatch(Sealed(h, c, Flat(front)), cutoff, size - |Flat(front)|, parts[|parts| - 1])
      && SameButSeams(c.lastSeq, front, Sealed(h, c, Flat(front)), Run(h, c, PartSteps(cutoff, |Flat(front)|, front)))
    ensures SameButSeams(c.lastSeq, parts, Sealed(h, c, Flat(parts)), Run(h, c, PartSteps(cutoff, size, parts)))
  {
    hide Sealed, NewCheckpoints, IsBatch, Chained, Flat, IsSeam, Sealable;
    var front, b := parts[..|parts| - 1], parts[|parts| - 1];
    var steps := PartSteps(cutoff, |Flat(front)|, front);
    var first, rest := Run(h, c, steps), size - |Flat(front)|;
    var more := RunKeepsChained(h, c, log, steps);
    SameBatch(Sealed(h, c, Flat(front)), first, cutoff, rest, b);
    BatchIsSealable(first, cutoff, rest, b);
    assert forall id | id in b :: id in first.entries by { SealableIds(first, b); }
    CheckpointsNeverCollide(h, first, log + more, b);
    assert PartSteps(cutoff, size, parts) == steps + [SealBatch(cutoff, rest, b)];
    assert (steps + [SealBatch(cutoff, rest, b)])[..|steps|] == steps;
    OneMorePart(h, c, log, parts, first);
  }

  lemma SealableIds(c: Ledger, batch: seq<nat>)
    requires Sealable(c, batch)
    ensures forall id | id in batch :: id in c.entries
  {
  }

  /** Cutting one batch into any number of non-empty parts, sealed one after the other, leaves the
      same rows, links, head and sequence; the checkpoints are those of the single batch and one at
      each seam. */
  lemma {:induction false} SplitManyWays(h: Hash, c: Ledger, log: seq<ChainRow>, cutoff: int, size: nat, parts: seq<seq<nat>>)
    requires Chained(h, c, log) && parts != [] && (forall p | p in parts :: p != [])
    requires IsBatch(c, cutoff, size, Flat(parts))
    ensures Sealable(c, Flat(parts)) && Apply(h, c, SealBatch(cutoff, size, Flat(parts))) == Sealed(h, c, Flat(parts))
    ensures SameButSeams(c.lastSeq, parts, Sealed(h, c, Flat(parts)), Run(h, c, PartSteps(cutoff, size, parts)))
    decreases |parts|
  {
    hide SealAll, NewCheckpoints, PointAt, Chained, Sealed, SameButSeams, Links, Eligible;
    var front, b := parts[..|parts| - 1], parts[|parts| - 1];
    BatchIsSealable(c, cutoff, size, Flat(parts));
    CheckpointsNeverCollide(h, c, log, Flat(parts));
    if front == [] {
      OnePartRun(h, c, cutoff, size, parts);
    } else {
      var a := Flat(front);
      BatchSplits(h, c, cutoff, |a|, size - |a|, a, b);
      assert b in parts && front[|front| - 1] in parts && forall p | p in front :: p in parts;
      FlatNonEmpty(front);
      SplitManyWays(h, c, log, cutoff, |a|, front);
      LastPart(h, c, log, cutoff, size, parts);
    }
  }
}
