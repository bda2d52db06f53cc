/** The audit verifier and what its verdict is worth (database/chain.go). */
module Audit {
  import opened Basics
  import opened Canonical
  import opened Chain

  /** A sealed transaction as the verifier reads it, in chain order. */
  datatype ChainedRow = ChainedRow(sequence: int, prev: Bytes, hash: Bytes, version: int, row: ChainRow)

  /** One consistent snapshot: the state row, the checkpoints in order, the sealed rows in order,
      and the transactions that the insert journal contradicts. */
  datatype Snapshot = Snapshot(lastSeq: int, head: Bytes, genesis: Bytes,
                               checkpoints: seq<Checkpoint>, rows: seq<ChainedRow>, journal: seq<Bytes>)

  datatype Reason =
    | InvalidAnchor | AnchorMismatch | UnexpectedGenesis | NotContiguous | BrokenLink | UnsupportedVersion
    | DataMismatch | CheckpointMismatch | StateMismatch | MissingEntry | CheckpointCount | JournalEvidence

  datatype Issue = Issue(sequence: int, transactionId: Bytes, reason: Reason)

  /** The root a checkpoint list stores for a sequence; a later duplicate wins. */
  function Roots(checkpoints: seq<Checkpoint>): map<int, Bytes>
  {
    if checkpoints == [] then map[]
    else
      var last := checkpoints[|checkpoints| - 1];
      Roots(checkpoints[..|checkpoints| - 1])[last.sequence := last.head]
  }

  function HeadBefore(s: Snapshot, i: nat): Bytes
    requires i <= |s.rows|
  {
    if i == 0 then s.genesis else s.rows[i - 1].hash
  }

  // ----- what a clean verdict means

  predicate AnchorAccepted(roots: map<int, Bytes>, a: Checkpoint)
  {
    a.sequence > 0 && a.count == a.sequence && a.sequence in roots && roots[a.sequence] == a.head
  }

  predicate RowIntact(h: Hash, s: Snapshot, roots: map<int, Bytes>, i: nat)
    requires i < |s.rows|
  {
    var r := s.rows[i];
    && r.sequence == i + 1 && r.prev == HeadBefore(s, i)
    && HashVersion(h, r.version, r.prev, r.row) == Some(r.hash)
    && (r.sequence in roots ==> roots[r.sequence] == r.hash)
  }

  predicate CheckpointIntact(s: Snapshot, cp: Checkpoint)
  {
    cp.count == cp.sequence && 0 < cp.sequence <= |s.rows|
  }

  /** Every commitment in the snapshot agrees with every other and with the anchors. */
  ghost predicate Intact(h: Hash, s: Snapshot, anchors: seq<Checkpoint>)
  {
    var roots := Roots(s.checkpoints);
    && (forall a | a in anchors :: AnchorAccepted(roots, a))
    && s.genesis == Genesis()
    && (forall i | 0 <= i < |s.rows| :: RowIntact(h, s, roots, i))
    && s.lastSeq == |s.rows| && s.head == HeadBefore(s, |s.rows|)
    && (forall cp | cp in s.checkpoints :: CheckpointIntact(s, cp))
    && s.journal == []
  }

  // ----- the verifier

  method ReadRoots(checkpoints: seq<Checkpoint>) returns (roots: map<int, Bytes>)
    ensures roots == Roots(checkpoints)
  {
    roots := map[];
    for i := 0 to |checkpoints|
      invariant roots == Roots(checkpoints[..i])
    {
      assert checkpoints[..i + 1][..i] == checkpoints[..i];
      roots := roots[checkpoints[i].sequence := checkpoints[i].head];
    }
    assert checkpoints[..|checkpoints|] == checkpoints;
  }

  method CheckAnchors(roots: map<int, Bytes>, anchors: seq<Checkpoint>) returns (issues: seq<Issue>)
    ensures issues == [] <==> forall a | a in anchors :: AnchorAccepted(roots, a)
  {
    issues := [];
    for i := 0 to |anchors|
      invariant issues == [] <==> forall j | 0 <= j < i :: AnchorAccepted(roots, anchors[j])
    {
      var a := anchors[i];
      if a.sequence <= 0 || a.count != a.sequence {
        issues := issues + [Issue(a.sequence, [], InvalidAnchor)];
      } else if a.sequence !in roots || roots[a.sequence] != a.head {
        issues := issues + [Issue(a.sequence, [], AnchorMismatch)];
      }
    }
  }

  /** Replays the links; checkpoints are struck off as their position is passed. */
  method ReplayLinks(h: Hash, s: Snapshot, roots: map<int, Bytes>)
    returns (issues: seq<Issue>, left: map<int, Bytes>, count: nat, last: int, head: Bytes)
    ensures issues == [] <==> forall i | 0 <= i < |s.rows| :: RowIntact(h, s, roots, i)
    ensures count == |s.rows| && head == HeadBefore(s, |s.rows|)
    ensures issues == [] ==> last == |s.rows| && (forall k :: k in left <==> k in roots && !(0 < k <= |s.rows|))
  {
    issues, left, count, last, head := [], roots, 0, 0, s.genesis;
    while count < |s.rows|
      invariant 0 <= count <= |s.rows| && head == HeadBefore(s, count)
      invariant issues == [] <==> forall i | 0 <= i < count :: RowIntact(h, s, roots, i)
      invariant issues == [] ==> last == count
      invariant issues == [] ==> forall k :: k in left <==> k in roots && !(0 < k <= count)
      invariant forall k | k in left :: k in roots && left[k] == roots[k]
    {
      ghost var before := issues;
      var r := s.rows[count];
      count := count + 1;
      if r.sequence != count {
        issues := issues + [Issue(r.sequence, r.row.transactionId, NotContiguous)];
      }
      if r.prev != head {
        issues := issues + [Issue(r.sequence, r.row.transactionId, BrokenLink)];
      }
      var hash := HashVersion(h, r.version, r.prev, r.row);
      if hash.None? {
        issues := issues + [Issue(r.sequence, r.row.transactionId, UnsupportedVersion)];
      } else if hash.value != r.hash {
        issues := issues + [Issue(r.sequence, r.row.transactionId, DataMismatch)];
      }
      if r.sequence in left {
        if left[r.sequence] != r.hash {
          issues := issues + [Issue(r.sequence, r.row.transactionId, CheckpointMismatch)];
        }
        left := left - {r.sequence};
      }
      assert before != [] ==> issues != [];
      assert before == [] ==> (issues == [] <==> RowIntact(h, s, roots, count - 1));
      head, last := r.hash, r.sequence;
    }
  }

  method CheckCheckpoints(checkpoints: seq<Checkpoint>, left: map<int, Bytes>) returns (issues: seq<Issue>)
    ensures issues == [] <==> forall cp | cp in checkpoints :: cp.sequence !in left && cp.count == cp.sequence
  {
    issues := [];
    for i := 0 to |checkpoints|
      invariant issues == [] <==> forall cp | cp in checkpoints[..i] :: cp.sequence !in left && cp.count == cp.sequence
    {
      var cp := checkpoints[i];
      assert checkpoints[..i + 1] == checkpoints[..i] + [cp];
      assert forall x :: x in checkpoints[..i + 1] <==> x in checkpoints[..i] || x == cp;
      if cp.sequence in left {
        issues := issues + [Issue(cp.sequence, [], MissingEntry)];
      }
      if cp.count != cp.sequence {
        issues := issues + [Issue(cp.sequence, [], CheckpointCount)];
      }
    }
    assert checkpoints[..|checkpoints|] == checkpoints;
  }

  /** The verifier reports nothing exactly when the snapshot is intact. */
  method VerifyChainSnapshotWithAnchors(h: Hash, s: Snapshot, anchors: seq<Checkpoint>) returns (verified: bool, tampering: seq<Issue>)
    ensures verified <==> tampering == []
    ensures tampering == [] <==> Intact(h, s, anchors)
  {
    hide RowIntact, AnchorAccepted;
    var roots := ReadRoots(s.checkpoints);
    tampering := CheckAnchors(roots, anchors);
    if s.genesis != Genesis() {
      tampering := tampering + [Issue(0, [], UnexpectedGenesis)];
    }
    var links, left, count, last, head := ReplayLinks(h, s, roots);
    tampering := tampering + links;
    if count != s.lastSeq || last != s.lastSeq || head != s.head {
      tampering := tampering + [Issue(s.lastSeq, [], StateMismatch)];
    }
    var points := CheckCheckpoints(s.checkpoints, left);
    tampering := tampering + points;
    tampering := tampering + seq(|s.journal|, i requires 0 <= i < |s.journal| => Issue(0, s.journal[i], JournalEvidence));
    if links == [] {
      RootsAreListed(s.checkpoints);
    }
    verified := tampering == [];
  }

  lemma {:induction false} RootsAreListed(checkpoints: seq<Checkpoint>)
    ensures forall cp | cp in checkpoints :: cp.sequence in Roots(checkpoints)
    ensures forall k | k in Roots(checkpoints) :: exists cp :: cp in checkpoints && cp.sequence == k && cp.head == Roots(checkpoints)[k]
  {
    if checkpoints != [] {
      var n := |checkpoints| - 1;
      RootsAreListed(checkpoints[..n]);
      assert checkpoints == checkpoints[..n] + [checkpoints[n]];
      var roots := Roots(checkpoints);
      forall k | k in roots
        ensures exists cp :: cp in checkpoints && cp.sequence == k && cp.head == roots[k]
      {
        if k == checkpoints[n].sequence {
          assert checkpoints[n] in checkpoints;
        } else {
          assert k in Roots(checkpoints[..n]);
          var cp :| cp in checkpoints[..n] && cp.sequence == k && cp.head == Roots(checkpoints[..n])[k];
          assert cp in checkpoints;
        }
      }
    }
  }

  // ----- sealed data verifies

  function RowOf(e: Entry): ChainedRow
    requires e.seal.Some?
  {
    ChainedRow(e.seal.value.sequence, e.seal.value.prev, e.seal.value.hash, e.seal.value.version, e.row)
  }

  ghost predicate IsSealedRow(c: Ledger, x: ChainedRow)
  {
    exists id :: id in c.entries && c.entries[id].seal.Some? && RowOf(c.entries[id]) == x
  }

  /** What the snapshot queries return for the stored data: the sealed rows and the checkpoints,
      each in ascending order. */
  ghost predicate Reads(c: Ledger, s: Snapshot)
  {
    && s.lastSeq == c.lastSeq && s.head == c.head && s.genesis == Genesis() && s.journal == []
    && (forall i, j | 0 <= i < j < |s.rows| :: s.rows[i].sequence < s.rows[j].sequence)
    && (forall x :: x in s.rows <==> IsSealedRow(c, x))
    && (forall i, j | 0 <= i < j < |s.checkpoints| :: s.checkpoints[i].sequence < s.checkpoints[j].sequence)
    && (forall cp :: cp in s.checkpoints <==> cp.sequence in c.checkpoints && c.checkpoints[cp.sequence] == cp)
  }

  lemma SealedPosition(h: Hash, c: Ledger, log: seq<ChainRow>, x: ChainedRow)
    requires Links(h, c, log) && IsSealedRow(c, x)
    ensures 0 < x.sequence <= |log|
    ensures x == ChainedRow(x.sequence, Head(h, log[..x.sequence - 1]), Head(h, log[..x.sequence]), 3, log[x.sequence - 1])
  {
    hide Head;
    var id :| id in c.entries && c.entries[id].seal.Some? && RowOf(c.entries[id]) == x;
    assert SealedInLog(h, log, c.entries[id]);
  }

  lemma PositionListed(h: Hash, c: Ledger, log: seq<ChainRow>, s: Snapshot, k: int) returns (j: nat)
    requires Links(h, c, log) && Reads(c, s) && 0 < k <= |log|
    ensures j < |s.rows| && s.rows[j].sequence == k
  {
    hide Head;
    assert Filled(c, k);
    var id :| HasSeal(c, id, k);
    var x := RowOf(c.entries[id]);
    assert IsSealedRow(c, x);
    assert x in s.rows;
    j :| 0 <= j < |s.rows| && s.rows[j] == x;
  }

  /** Sequences are 1 to n with no gap: row i of the listing is position i + 1. */
  lemma {:induction false} NoGaps(h: Hash, c: Ledger, log: seq<ChainRow>, s: Snapshot, i: nat)
    requires Links(h, c, log) && Reads(c, s) && i < |s.rows|
    ensures s.rows[i].sequence == i + 1 && i < |log|
    decreases i
  {
    hide Links, Head;
    assert s.rows[i] in s.rows;
    SealedPosition(h, c, log, s.rows[i]);
    if i > 0 {
      NoGaps(h, c, log, s, i - 1);
    }
    assert s.rows[i].sequence >= i + 1;
    var j := PositionListed(h, c, log, s, i + 1);
    if j < i {
      NoGaps(h, c, log, s, j);
    }
  }

  /** The listing is the sealed log, row by row. */
  lemma ListingIsLog(h: Hash, c: Ledger, log: seq<ChainRow>, s: Snapshot)
    requires Links(h, c, log) && Reads(c, s)
    ensures |s.rows| == |log|
    ensures forall i | 0 <= i < |log| :: s.rows[i] == ChainedRow(i + 1, Head(h, log[..i]), Head(h, log[..i + 1]), 3, log[i])
  {
    hide Links, Head;
    if |s.rows| > |log| {
      NoGaps(h, c, log, s, |log|);
    } else if |s.rows| < |log| {
      var j := PositionListed(h, c, log, s, |s.rows| + 1);
      NoGaps(h, c, log, s, j);
    }
    forall i | 0 <= i < |s.rows|
      ensures s.rows[i] == ChainedRow(i + 1, Head(h, log[..i]), Head(h, log[..i + 1]), 3, log[i])
    {
      NoGaps(h, c, log, s, i);
      assert s.rows[i] in s.rows;
      SealedPosition(h, c, log, s.rows[i]);
    }
  }

  lemma RootsOfPoints(h: Hash, c: Ledger, log: seq<ChainRow>, s: Snapshot, k: int)
    requires Points(h, c, log) && Reads(c, s)
    ensures k in Roots(s.checkpoints) <==> k in c.checkpoints
    ensures k in c.checkpoints ==> Roots(s.checkpoints)[k] == Head(h, log[..k])
  {
    hide Head;
    RootsAreListed(s.checkpoints);
    if k in c.checkpoints {
      assert c.checkpoints[k] in s.checkpoints;
    }
    if k in Roots(s.checkpoints) {
      var cp :| cp in s.checkpoints && cp.sequence == k && cp.head == Roots(s.checkpoints)[k];
    }
  }

  /** Unchanged sealed data verifies without an issue, against any anchors that were exported from
      it: each anchor is a checkpoint the data still holds. */
  lemma SealedDataVerifies(h: Hash, c: Ledger, log: seq<ChainRow>, s: Snapshot, anchors: seq<Checkpoint>)
    requires Chained(h, c, log) && Reads(c, s)
    requires forall a | a in anchors :: a.sequence in c.checkpoints && c.checkpoints[a.sequence] == a
    ensures Intact(h, s, anchors)
  {
    hide Head, Links, Roots;
    ListingIsLog(h, c, log, s);
    LastSeqIsLength(h, c, log);
    HeadIsLast(h, c, log);
    var roots := Roots(s.checkpoints);
    forall k {
      RootsOfPoints(h, c, log, s, k);
    }
    forall i | 0 <= i < |s.rows|
      ensures RowIntact(h, s, roots, i)
    {
      LogLink(h, log, i);
      RootsOfPoints(h, c, log, s, i + 1);
      GenesisHead(h, log);
    }
    forall a | a in anchors
      ensures AnchorAccepted(roots, a)
    {
      RootsOfPoints(h, c, log, s, a.sequence);
    }
    GenesisHead(h, log);
    assert log[..|log|] == log;
  }

  lemma HeadIsLast(h: Hash, c: Ledger, log: seq<ChainRow>)
    requires Links(h, c, log)
    ensures c.head == Head(h, log)
  {
  }

  lemma GenesisHead(h: Hash, log: seq<ChainRow>)
    ensures Head(h, log[..0]) == Genesis() == Head(h, [])
  {
  }

  /** The stored hash of a position is the version 3 hash of the row on the previous head. */
  lemma LogLink(h: Hash, log: seq<ChainRow>, i: nat)
    requires i < |log|
    ensures HashVersion(h, 3, Head(h, log[..i]), log[i]) == Some(Head(h, log[..i + 1]))
  {
    hide V3;
    assert log[..i + 1][..i] == log[..i];
  }

  /** After any run of arrivals and sealing batches, the verifier accepts the data, together with
      every checkpoint exported at any earlier moment of the run. */
  lemma {:induction false} SealThenVerify(h: Hash, early: seq<Step>, late: seq<Step>, s: Snapshot, anchors: seq<Checkpoint>)
    requires var earlier := Run(h, Empty(), early);
             forall a | a in anchors :: a.sequence in earlier.checkpoints && earlier.checkpoints[a.sequence] == a
    requires Reads(Run(h, Run(h, Empty(), early), late), s)
    ensures Intact(h, s, anchors)
  {
    hide Chained, Reads, Intact, Run;
    EmptyIsChained(h);
    var log := RunKeepsChained(h, Empty(), [], early);
    assert [] + log == log;
    var more := RunKeepsChained(h, Run(h, Empty(), early), log, late);
    SealedDataVerifies(h, Run(h, Run(h, Empty(), early), late), log + more, s, anchors);
  }

  // ----- what an accepted anchor proves

  /** Two different byte strings with the same hash. */
  ghost predicate Collides(h: Hash, x: Bytes, y: Bytes)
  {
    x != y && h(x) == h(y)
  }

  /** Bytes that are a version 3 encoding come from no other version and no other row. */
  lemma OnlyVersion3(version: int, prev: Bytes, row: ChainRow, p: Bytes, r: ChainRow)
    requires |V3(p, r)| < SLICE_LIMIT && Hexadecimal(prev)
    requires CanonicalBytes(version, prev, row) == Some(V3(p, r))
    ensures version == 3 && prev == p && row == r
  {
    hide V1, V2, V3;
    assert prev != [] ==> prev[0] in prev;
    match version
    case 1 => V1IsNotV2OrV3(prev, row, p, r);
    case 2 => V2IsNotV3(prev, row, p, r);
    case 3 => V3Injective(p, r, prev, row);
    case _ =>
  }

  lemma HeadsAreHexadecimal(h: Hash, s: Snapshot, anchors: seq<Checkpoint>, i: nat)
    requires HexHash(h) && Intact(h, s, anchors) && i <= |s.rows|
    ensures Hexadecimal(HeadBefore(s, i))
  {
    if i > 0 {
      assert RowIntact(h, s, Roots(s.checkpoints), i - 1);
    }
  }

  /** A stored link whose hash is that of a version 3 row holds that row, or gives a collision. */
  lemma SameHashSameRow(h: Hash, s: Snapshot, anchors: seq<Checkpoint>, i: nat, prev: Bytes, row: ChainRow)
    returns (x: Bytes, y: Bytes)
    requires HexHash(h) && Intact(h, s, anchors) && i < |s.rows|
    requires |V3(prev, row)| < SLICE_LIMIT && s.rows[i].hash == h(V3(prev, row))
    ensures Collides(h, x, y) || (s.rows[i].row == row && s.rows[i].version == 3 && HeadBefore(s, i) == prev)
  {
    hide V3, HexHash, CanonicalBytes;
    var r := s.rows[i];
    assert RowIntact(h, s, Roots(s.checkpoints), i);
    x, y := CanonicalBytes(r.version, r.prev, r.row).value, V3(prev, row);
    if x == y {
      HeadsAreHexadecimal(h, s, anchors, i);
      OnlyVersion3(r.version, r.prev, r.row, prev, row);
    }
  }

  ghost predicate Fits(h: Hash, log: seq<ChainRow>)
  {
    forall i | 0 <= i < |log| :: |V3(Head(h, log[..i]), log[i])| < SLICE_LIMIT
  }

  /** If the listing's head after k rows is the head of the log's first k rows, those rows are the
      same, or a collision is found on the way back. */
  lemma {:induction false} SameHeadSameRows(h: Hash, s: Snapshot, anchors: seq<Checkpoint>, log: seq<ChainRow>, k: nat)
    returns (x: Bytes, y: Bytes)
    requires HexHash(h) && Intact(h, s, anchors) && k <= |log| && k <= |s.rows| && Fits(h, log)
    requires HeadBefore(s, k) == Head(h, log[..k])
    ensures Collides(h, x, y) || forall i | 0 <= i < k :: s.rows[i].row == log[i] && s.rows[i].version == 3
    decreases k
  {
    hide V3, HexHash, Intact, Collides;
    x, y := [], [];
    if k > 0 {
      assert log[..k][..k - 1] == log[..k - 1];
      x, y := SameHashSameRow(h, s, anchors, k - 1, Head(h, log[..k - 1]), log[k - 1]);
      if !Collides(h, x, y) {
        x, y := SameHeadSameRows(h, s, anchors, log, k - 1);
      }
    }
  }

  /** Anchored audit: when the verifier reports no tampering and accepts an anchor whose head is
      that of a sealed log, the first rows of the audited data are exactly the log's rows, field
      for field and in order, all sealed as version 3; otherwise a hash collision is exhibited. */
  lemma {:induction false} AnchoredAudit(h: Hash, s: Snapshot, anchors: seq<Checkpoint>, a: Checkpoint, log: seq<ChainRow>)
    returns (x: Bytes, y: Bytes)
    requires HexHash(h) && Intact(h, s, anchors) && a in anchors
    requires a.sequence == |log| && a.head == Head(h, log) && Fits(h, log)
    ensures Collides(h, x, y) ||
            (|log| <= |s.rows| && forall i | 0 <= i < |log| :: s.rows[i].row == log[i] && s.rows[i].version == 3)
  {
    hide HexHash, Head;
    var roots := Roots(s.checkpoints);
    assert AnchorAccepted(roots, a);
    RootsAreListed(s.checkpoints);
    var cp :| cp in s.checkpoints && cp.sequence == a.sequence;
    assert CheckpointIntact(s, cp);
    assert RowIntact(h, s, roots, a.sequence - 1);
    assert log[..|log|] == log;
    x, y := SameHeadSameRows(h, s, anchors, log, |log|);
  }
}
