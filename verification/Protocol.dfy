/** Serializability of the versioned write protocol.

    Any number of workers read rows one at a time, apply a batch of postings to their copies in
    memory, and write the touched rows back through the version check. Events interleave freely.

    A database transaction can also fail after some of its version checks passed. The rows are
    rolled back, but the objects in memory are not: they keep the new counters, and the version of
    each row that was written runs ahead. The ledger drops such objects and reads again
    (internal/core/transaction_execution.go:569-593); this module proves what that is worth. */
module Protocol {
  import opened Basics
  import opened Ledger
  import opened BookKeeping
  import opened Store

  /** What each worker has read, the table, and the batches committed so far. */
  datatype State = State(rows: Table, copies: map<nat, Table>, log: seq<seq<Posting>>)

  datatype Event =
    | Read(worker: nat, id: string)
    | Commit(worker: nat, batch: seq<Posting>)
    | Abort(worker: nat, batch: seq<Posting>, written: set<string>)
    | Forget(worker: nat)

  function CopyOf(s: State, worker: nat): Table
  {
    if worker in s.copies then s.copies[worker] else map[]
  }

  function BooksOf(rows: Table): Books
  {
    map id | id in rows :: rows[id].account
  }

  function Touched(batch: seq<Posting>): set<string>
  {
    (set p | p in batch :: p.source) + (set p | p in batch :: p.destination)
  }

  /** The rows a worker writes after applying the batch to its copies; None if it did not read
      them all or a posting is refused. */
  function Prepared(copy: Table, batch: seq<Posting>): Option<Table>
  {
    var after := PostAll(BooksOf(copy), batch);
    if Touched(batch) <= copy.Keys && after.Some? && Touched(batch) <= after.value.Keys then
      Some(map id | id in Touched(batch) :: Versioned(after.value[id], copy[id].version))
    else None
  }

  /** The objects after a rolled back write: versions of the rows that were written are ahead. */
  function Ahead(writes: Table, written: set<string>): Table
  {
    map id | id in writes :: Versioned(writes[id].account, writes[id].version + if id in written then 1 else 0)
  }

  /** A commit either writes everything and is logged, or changes nothing and the worker starts
      over; after a success its copies follow the rows. An aborted one changes nothing but the
      worker's copies. */
  function Next(s: State, e: Event): State
  {
    match e
    case Read(w, id) =>
      if id in s.rows then s.(copies := s.copies[w := CopyOf(s, w)[id := s.rows[id]]]) else s
    case Forget(w) => s.(copies := s.copies[w := map[]])
    case Commit(w, batch) =>
      var writes := Prepared(CopyOf(s, w), batch);
      var written := if writes.Some? then CompareAndSet(s.rows, writes.value) else None;
      if written.Some? then
        State(written.value, s.copies[w := CopyOf(s, w) + Restrict(written.value, writes.value.Keys)], s.log + [batch])
      else s.(copies := s.copies[w := map[]])
    case Abort(w, batch, written) =>
      var writes := Prepared(CopyOf(s, w), batch);
      if writes.Some? && Current(s.rows, Restrict(writes.value, written)) then
        s.(copies := s.copies[w := CopyOf(s, w) + Ahead(writes.value, written)])
      else s.(copies := s.copies[w := map[]])
  }

  function Restrict(rows: Table, ids: set<string>): Table
  {
    map id | id in rows && id in ids :: rows[id]
  }

  function Run(s: State, es: seq<Event>): State
  {
    if es == [] then s else Next(Run(s, es[..|es| - 1]), es[|es| - 1])
  }

  // ----- postings see and change only their own rows

  lemma PostIsLocal(a: Books, b: Books, p: Posting)
    requires p.source in a && p.destination in a && p.source in b && p.destination in b
    requires a[p.source] == b[p.source] && a[p.destination] == b[p.destination]
    ensures Post(a, p).Some? <==> Post(b, p).Some?
    ensures Post(a, p).Some? ==>
              Post(b, p).value == b[p.source := Post(a, p).value[p.source]][p.destination := Post(a, p).value[p.destination]]
  {
  }

  /** Agreeing on the touched rows is enough: the batch succeeds on b exactly as on a, and
      changes b only there. */
  lemma {:induction false} BatchIsLocal(a: Books, b: Books, batch: seq<Posting>, ids: set<string>)
    requires Touched(batch) <= ids && ids <= a.Keys && ids <= b.Keys
    requires forall id | id in ids :: a[id] == b[id]
    ensures PostAll(a, batch).Some? <==> PostAll(b, batch).Some?
    ensures PostAll(a, batch).Some? ==>
              var a', b' := PostAll(a, batch).value, PostAll(b, batch).value;
              && a'.Keys == a.Keys && b'.Keys == b.Keys
              && (forall id | id in ids :: a'[id] == b'[id])
              && (forall id | id in b && id !in Touched(batch) :: b'[id] == b[id])
    decreases |batch|
  {
    if batch != [] {
      var front, last := batch[..|batch| - 1], batch[|batch| - 1];
      assert forall p | p in front :: p in batch;
      BatchIsLocal(a, b, front, ids);
      if PostAll(a, front).Some? {
        assert last in batch;
        PostIsLocal(PostAll(a, front).value, PostAll(b, front).value, last);
      }
    }
  }

  // ----- postings lose nothing

  lemma PostForgetsNothing(a: Books, b: Books, p: Posting)
    requires Consistent(a) && Consistent(b) && Post(a, p).Some? && Post(b, p).Some?
    requires Post(a, p).value[p.source] == Post(b, p).value[p.source]
    requires Post(a, p).value[p.destination] == Post(b, p).value[p.destination]
    ensures a[p.source] == b[p.source] && a[p.destination] == b[p.destination]
  {
  }

  /** A batch that leaves two consistent books alike on the rows it touches found them alike. */
  lemma {:induction false} BatchForgetsNothing(a: Books, b: Books, batch: seq<Posting>)
    requires Consistent(a) && Consistent(b) && PostAll(a, batch).Some? && PostAll(b, batch).Some?
    requires forall id | id in Touched(batch) :: id in PostAll(a, batch).value && id in PostAll(b, batch).value
    requires forall id | id in Touched(batch) :: PostAll(a, batch).value[id] == PostAll(b, batch).value[id]
    ensures forall id | id in Touched(batch) :: id in a && id in b && a[id] == b[id]
    decreases |batch|
  {
    if batch != [] {
      var front, last := batch[..|batch| - 1], batch[|batch| - 1];
      var a', b' := PostAll(a, front).value, PostAll(b, front).value;
      TouchedLast(batch);
      BatchKeeps(a, front);
      BatchKeeps(b, front);
      hide PostAll, Consistent, Touched;
      assert Post(a', last) == PostAll(a, batch) && Post(b', last) == PostAll(b, batch) by { PostAllLast(a, batch); PostAllLast(b, batch); }
      PostForgetsNothing(a', b', last);
      forall id | id in Touched(front) ensures id in a' && id in b' && a'[id] == b'[id] {
      }
      BatchForgetsNothing(a, b, front);
    }
  }

  lemma PostAllLast(books: Books, batch: seq<Posting>)
    requires batch != [] && PostAll(books, batch).Some?
    ensures PostAll(books, batch[..|batch| - 1]).Some?
    ensures Post(PostAll(books, batch[..|batch| - 1]).value, batch[|batch| - 1]) == PostAll(books, batch)
  {
  }

  lemma TouchedLast(batch: seq<Posting>)
    requires batch != []
    ensures var last := batch[|batch| - 1]; Touched(batch) == Touched(batch[..|batch| - 1]) + {last.source, last.destination}
  {
    assert batch == batch[..|batch| - 1] + [batch[|batch| - 1]];
  }

  /** What a batch keeps of consistent books: their rows, consistency, and what it does not touch. */
  lemma {:induction false} BatchKeeps(books: Books, batch: seq<Posting>)
    requires Consistent(books) && PostAll(books, batch).Some?
    ensures var after := PostAll(books, batch).value;
      && Consistent(after) && after.Keys == books.Keys && Touched(batch) <= books.Keys
      && forall id | id in books && id !in Touched(batch) :: after[id] == books[id]
    decreases |batch|
  {
    if batch != [] {
      var front, last := batch[..|batch| - 1], batch[|batch| - 1];
      BatchKeeps(books, front);
      TouchedLast(batch);
      PostKeepsConsistent(PostAll(books, front).value, last, PostAll(books, batch).value);
    }
  }

  // ----- the invariant behind the version check

  function RunFrom(start: Table, es: seq<Event>): State
  {
    Run(State(start, map[], []), es)
  }

  /** A copy that still has the row's version has the row's value. */
  ghost predicate CopyFresh(rows: Table, copy: Table)
  {
    forall id | id in copy ::
      id in rows && copy[id].version <= rows[id].version && (copy[id].version == rows[id].version ==> copy[id] == rows[id])
  }

  lemma WrittenIsLater(rows: Table, writes: Table, copy: Table)
    requires CopyFresh(rows, copy)
    ensures CopyFresh(Written(rows, writes), copy)
  {
  }

  lemma FreshWith(rows: Table, copy: Table, ids: set<string>)
    requires CopyFresh(rows, copy)
    ensures CopyFresh(rows, copy + Restrict(rows, ids))
  {
  }

  lemma EmptyFresh(rows: Table)
    ensures CopyFresh(rows, map[])
  {
  }

  lemma NextKeepsOther(s: State, e: Event, w: nat)
    requires e.worker != w && CopyFresh(s.rows, CopyOf(s, w))
    ensures CopyOf(Next(s, e), w) == CopyOf(s, w) && CopyFresh(Next(s, e).rows, CopyOf(s, w))
  {
    hide Prepared, CopyFresh, Restrict, Ahead, Written, Current;
    if e.Commit? {
      var writes := Prepared(CopyOf(s, e.worker), e.batch);
      if writes.Some? {
        WrittenIsLater(s.rows, writes.value, CopyOf(s, w));
      }
    }
  }

  /** Everything but an abort keeps the worker's own copies fresh. */
  lemma NextKeepsOwn(s: State, e: Event)
    requires !e.Abort? && CopyFresh(s.rows, CopyOf(s, e.worker))
    ensures CopyFresh(Next(s, e).rows, CopyOf(Next(s, e), e.worker))
  {
    var copy := CopyOf(s, e.worker);
    if e.Commit? {
      hide CopyFresh, Prepared, Restrict, Written, Current;
      EmptyFresh(s.rows);
      var writes := Prepared(copy, e.batch);
      if writes.Some? && Current(s.rows, writes.value) {
        var rows := Written(s.rows, writes.value);
        WrittenIsLater(s.rows, writes.value, copy);
        FreshWith(rows, copy, writes.value.Keys);
      }
    }
  }

  /** The worker has dropped its copies since its last aborted transaction. */
  predicate Clean(es: seq<Event>, w: nat)
  {
    if es == [] then true
    else
      var e := es[|es| - 1];
      if e.worker == w && e.Abort? then false
      else if e.worker == w && e.Forget? then true
      else Clean(es[..|es| - 1], w)
  }

  /** The ledger's discipline: nothing is written from objects of an aborted transaction. */
  predicate Disciplined(es: seq<Event>)
  {
    if es == [] then true
    else
      var front, e := es[..|es| - 1], es[|es| - 1];
      Disciplined(front) && (e.Commit? || e.Abort? ==> Clean(front, e.worker))
  }

  lemma {:induction false} CleanCopiesFresh(start: Table, es: seq<Event>, w: nat)
    requires Clean(es, w)
    ensures CopyFresh(RunFrom(start, es).rows, CopyOf(RunFrom(start, es), w))
    decreases |es|
  {
    hide CopyFresh, Next;
    EmptyFresh(start);
    if es != [] {
      var front, e := es[..|es| - 1], es[|es| - 1];
      var s := RunFrom(start, front);
      if e.worker != w {
        CleanCopiesFresh(start, front, w);
        NextKeepsOther(s, e, w);
      } else if e.Forget? {
        ForgetIsFresh(s, w);
      } else {
        CleanCopiesFresh(start, front, w);
        NextKeepsOwn(s, e);
      }
    }
  }

  lemma ForgetIsFresh(s: State, w: nat)
    ensures CopyFresh(Next(s, Forget(w)).rows, CopyOf(Next(s, Forget(w)), w))
  {
  }

  // ----- commits that see the current rows

  predicate Accepted(s: State, w: nat, batch: seq<Posting>)
  {
    var writes := Prepared(CopyOf(s, w), batch);
    writes.Some? && Current(s.rows, writes.value)
  }

  /** The worker's copies of the rows the batch touches have the rows' counters. */
  predicate SeesCurrent(s: State, w: nat, batch: seq<Posting>)
  {
    forall id | id in Touched(batch) ::
      id in s.rows && id in CopyOf(s, w) && CopyOf(s, w)[id].account == s.rows[id].account
  }

  lemma FreshSeesCurrent(s: State, w: nat, batch: seq<Posting>)
    requires CopyFresh(s.rows, CopyOf(s, w)) && Accepted(s, w, batch)
    ensures SeesCurrent(s, w, batch)
  {
    var copy, writes := CopyOf(s, w), Prepared(CopyOf(s, w), batch).value;
    forall id | id in Touched(batch) ensures id in s.rows && id in copy && copy[id] == s.rows[id] {
      assert writes[id].version == copy[id].version;
    }
  }

  /** A commit that sees the current rows writes what its batch makes of them. */
  lemma {:induction false} CommitIsSerial(s: State, worker: nat, batch: seq<Posting>, writes: Table)
    requires SeesCurrent(s, worker, batch)
    requires Prepared(CopyOf(s, worker), batch) == Some(writes) && Current(s.rows, writes)
    ensures PostAll(BooksOf(s.rows), batch) == Some(BooksOf(Written(s.rows, writes)))
  {
    var copy := CopyOf(s, worker);
    BatchIsLocal(BooksOf(copy), BooksOf(s.rows), batch, Touched(batch));
    assert PostAll(BooksOf(s.rows), batch).value == BooksOf(Written(s.rows, writes));
  }

  /** Conversely, if it writes that, it saw them. */
  lemma {:induction false} SerialSawCurrent(s: State, worker: nat, batch: seq<Posting>, writes: Table)
    requires Consistent(BooksOf(s.rows)) && Consistent(BooksOf(CopyOf(s, worker)))
    requires Prepared(CopyOf(s, worker), batch) == Some(writes) && Current(s.rows, writes)
    requires PostAll(BooksOf(s.rows), batch) == Some(BooksOf(Written(s.rows, writes)))
    ensures SeesCurrent(s, worker, batch)
  {
    hide PostAll, Consistent, Touched;
    var mine, theirs := BooksOf(CopyOf(s, worker)), BooksOf(s.rows);
    var after, rows := PostAll(mine, batch).value, Written(s.rows, writes);
    forall id | id in Touched(batch) ensures id in after && id in BooksOf(rows) && after[id] == BooksOf(rows)[id] {
      assert writes[id].account == after[id];
      assert rows[id].account == writes[id].account;
    }
    BatchForgetsNothing(mine, theirs, batch);
  }

  // ----- serializability

  function Flatten(log: seq<seq<Posting>>): seq<Posting>
  {
    if log == [] then [] else Flatten(log[..|log| - 1]) + log[|log| - 1]
  }

  /** How many committed batches touched a row. */
  function Writers(log: seq<seq<Posting>>, id: string): nat
  {
    if log == [] then 0
    else Writers(log[..|log| - 1], id) + if id in Touched(log[|log| - 1]) then 1 else 0
  }

  /** Each row's version counts the batches that wrote it. */
  ghost predicate Counted(start: Table, s: State)
  {
    && s.rows.Keys == start.Keys
    && (forall id | id in s.rows :: s.rows[id].version == start[id].version + Writers(s.log, id))
  }

  /** The table is what the logged postings make of the starting table, one at a time in commit
      order, and versions count the batches. */
  ghost predicate Serial(start: Table, s: State)
  {
    Counted(start, s) && PostAll(BooksOf(start), Flatten(s.log)) == Some(BooksOf(s.rows))
  }

  /** The state after an accepted commit, copies aside. */
  function Logged(s: State, batch: seq<Posting>, writes: Table): State
  {
    State(Written(s.rows, writes), s.copies, s.log + [batch])
  }

  lemma CommitCounts(start: Table, s: State, batch: seq<Posting>, writes: Table)
    requires Counted(start, s) && writes.Keys == Touched(batch) && Current(s.rows, writes)
    ensures Counted(start, Logged(s, batch, writes))
  {
    hide Touched;
    assert (s.log + [batch])[..|s.log|] == s.log;
  }

  lemma PreparedKeys(copy: Table, batch: seq<Posting>)
    requires Prepared(copy, batch).Some?
    ensures Prepared(copy, batch).value.Keys == Touched(batch)
  {
  }

  lemma SameCounted(start: Table, s: State, after: State)
    requires after.rows == s.rows && after.log == s.log
    ensures Counted(start, s) <==> Counted(start, after)
    ensures Serial(start, s) <==> Serial(start, after)
  {
    hide PostAll, BooksOf, Flatten, Writers;
  }

  /** What an event does to rows and log. */
  lemma NextIs(s: State, e: Event)
    ensures var after := Next(s, e);
      if e.Commit? && Accepted(s, e.worker, e.batch) then
        var writes := Prepared(CopyOf(s, e.worker), e.batch).value;
        after.rows == Logged(s, e.batch, writes).rows && after.log == Logged(s, e.batch, writes).log
      else after.rows == s.rows && after.log == s.log
  {
    hide Prepared, CopyOf, Restrict, Ahead, Written, Current;
  }

  lemma {:induction false} RunCounts(start: Table, es: seq<Event>)
    ensures Counted(start, RunFrom(start, es))
    decreases |es|
  {
    hide Counted, Next;
    if es == [] {
      StartCounts(start);
    } else {
      var s, e := RunFrom(start, es[..|es| - 1]), es[|es| - 1];
      RunCounts(start, es[..|es| - 1]);
      NextCounts(start, s, e);
    }
  }

  lemma StartCounts(start: Table)
    ensures Counted(start, State(start, map[], [])) && Serial(start, State(start, map[], []))
  {
    assert Flatten([]) == [];
  }

  lemma NextCounts(start: Table, s: State, e: Event)
    requires Counted(start, s)
    ensures Counted(start, Next(s, e))
  {
    hide Counted, Next, Prepared, CopyOf, Written, Current;
    NextIs(s, e);
    if e.Commit? && Accepted(s, e.worker, e.batch) {
      var writes := Prepared(CopyOf(s, e.worker), e.batch).value;
      PreparedKeys(CopyOf(s, e.worker), e.batch);
      CommitCounts(start, s, e.batch, writes);
      SameCounted(start, Logged(s, e.batch, writes), Next(s, e));
    } else {
      SameCounted(start, s, Next(s, e));
    }
  }

  /** Appending a batch to the log is posting it last. */
  lemma LoggedBooks(start: Table, s: State, batch: seq<Posting>, writes: Table)
    requires PostAll(BooksOf(start), Flatten(s.log)) == Some(BooksOf(s.rows))
    ensures PostAll(BooksOf(start), Flatten(Logged(s, batch, writes).log)) == PostAll(BooksOf(s.rows), batch)
  {
    hide PostAll, BooksOf;
    assert (s.log + [batch])[..|s.log|] == s.log;
    PostAllSplit(BooksOf(start), Flatten(s.log), batch);
  }

  /** An accepted commit sees the current rows. */
  predicate Honest(s: State, e: Event)
  {
    e.Commit? && Accepted(s, e.worker, e.batch) ==> SeesCurrent(s, e.worker, e.batch)
  }

  lemma {:induction false} HonestKeepsSerial(start: Table, s: State, e: Event)
    requires Serial(start, s) && Honest(s, e)
    ensures Serial(start, Next(s, e))
  {
    hide Counted, Next, Prepared, CopyOf, Written, Current, PostAll, BooksOf, Flatten, SeesCurrent;
    NextCounts(start, s, e);
    NextIs(s, e);
    if e.Commit? && Accepted(s, e.worker, e.batch) {
      var writes := Prepared(CopyOf(s, e.worker), e.batch).value;
      CommitIsSerial(s, e.worker, e.batch, writes);
      LoggedBooks(start, s, e.batch, writes);
    }
  }

  /** Serializability: every interleaving of reads, commits and aborts, in which nothing is written
      from the objects of an aborted transaction, leaves the table as if the committed batches had
      run alone, one after another. */
  lemma {:induction false} RunIsSerial(start: Table, es: seq<Event>)
    requires Disciplined(es)
    ensures Serial(start, RunFrom(start, es))
    decreases |es|
  {
    hide Serial, Next, Clean, SeesCurrent, CopyFresh, Accepted;
    StartCounts(start);
    if es != [] {
      var front, e := es[..|es| - 1], es[|es| - 1];
      var s := RunFrom(start, front);
      RunIsSerial(start, front);
      if e.Commit? && Accepted(s, e.worker, e.batch) {
        CleanCopiesFresh(start, front, e.worker);
        FreshSeesCurrent(s, e.worker, e.batch);
      }
      HonestKeepsSerial(start, s, e);
    }
  }

  // ----- without the discipline

  /** Rows and copies are consistent books. */
  ghost predicate Sane(s: State)
  {
    Consistent(BooksOf(s.rows)) && forall w | w in s.copies :: Consistent(BooksOf(s.copies[w]))
  }

  lemma SaneCopy(s: State, w: nat)
    requires Sane(s)
    ensures Consistent(BooksOf(CopyOf(s, w)))
  {
  }

  lemma PreparedSane(copy: Table, batch: seq<Posting>)
    requires Consistent(BooksOf(copy)) && Prepared(copy, batch).Some?
    ensures Consistent(BooksOf(Prepared(copy, batch).value))
  {
    hide PostAll, Touched;
    BatchKeeps(BooksOf(copy), batch);
  }

  lemma JoinSane(a: Table, b: Table)
    requires Consistent(BooksOf(a)) && Consistent(BooksOf(b))
    ensures Consistent(BooksOf(a + b))
  {
    forall id | id in a + b ensures (a + b)[id].account.Consistent() && (a + b)[id].account.inflightCredit >= 0 && (a + b)[id].account.inflightDebit >= 0 {
      assert id in b ==> BooksOf(b)[id] == b[id].account;
      assert id in a ==> BooksOf(a)[id] == a[id].account;
    }
  }

  lemma WrittenSane(rows: Table, writes: Table)
    requires Consistent(BooksOf(rows)) && Consistent(BooksOf(writes))
    ensures Consistent(BooksOf(Written(rows, writes)))
  {
    forall id | id in rows ensures BooksOf(Written(rows, writes))[id] == rows[id].account || (id in writes && BooksOf(Written(rows, writes))[id] == writes[id].account) {
    }
    assert forall id | id in rows :: BooksOf(rows)[id] == rows[id].account;
    assert forall id | id in writes :: BooksOf(writes)[id] == writes[id].account;
  }

  lemma PartSane(rows: Table, part: Table)
    requires Consistent(BooksOf(rows)) && forall id | id in part :: id in rows && part[id].account == rows[id].account
    ensures Consistent(BooksOf(part))
  {
    assert forall id | id in part :: BooksOf(part)[id] == BooksOf(rows)[id];
  }

  lemma CopySane(s: State, worker: nat, copy: Table)
    requires Sane(s) && Consistent(BooksOf(copy))
    ensures Sane(s.(copies := s.copies[worker := copy]))
  {
    hide Consistent, BooksOf;
  }

  lemma EmptySane()
    ensures Consistent(BooksOf(map[]))
  {
  }

  lemma NextKeepsSane(s: State, e: Event)
    requires Sane(s)
    ensures Sane(Next(s, e))
  {
    var copy := CopyOf(s, e.worker);
    SaneCopy(s, e.worker);
    EmptySane();
    CopySane(s, e.worker, map[]);
    if e.Read? {
      if e.id in s.rows {
        var read := map[e.id := s.rows[e.id]];
        PartSane(s.rows, read);
        JoinSane(copy, read);
        assert copy + read == copy[e.id := s.rows[e.id]];
        CopySane(s, e.worker, copy + read);
      }
    } else if !e.Forget? && Prepared(copy, e.batch).Some? {
      var writes := Prepared(copy, e.batch).value;
      PreparedSane(copy, e.batch);
      if e.Commit? {
        var rows := Written(s.rows, writes);
        WrittenSane(s.rows, writes);
        PartSane(rows, Restrict(rows, writes.Keys));
        hide Consistent, BooksOf, Written, Prepared, Restrict, Current, CopyOf;
        JoinSane(copy, Restrict(rows, writes.Keys));
        CopySane(State(rows, s.copies, s.log), e.worker, copy + Restrict(rows, writes.Keys));
      } else {
        PartSane(writes, Ahead(writes, e.written));
        hide Consistent, BooksOf, Prepared, Restrict, Current, Ahead, CopyOf;
        JoinSane(copy, Ahead(writes, e.written));
        CopySane(s, e.worker, copy + Ahead(writes, e.written));
      }
    }
  }

  /** One event keeps the table serial if and only if it is not an accepted commit of objects whose
      counters are no longer those of the rows. */
  lemma {:induction false} NextIsSerialIff(start: Table, s: State, e: Event)
    requires Serial(start, s) && Sane(s)
    ensures Serial(start, Next(s, e)) <==> Honest(s, e)
  {
    if Honest(s, e) {
      HonestKeepsSerial(start, s, e);
    } else if Serial(start, Next(s, e)) {
      hide Counted, Next, Prepared, CopyOf, Written, Current, PostAll, BooksOf, Flatten, SeesCurrent, Consistent;
      var writes := Prepared(CopyOf(s, e.worker), e.batch).value;
      NextIs(s, e);
      LoggedBooks(start, s, e.batch, writes);
      SaneCopy(s, e.worker);
      SerialSawCurrent(s, e.worker, e.batch, writes);
    }
  }

  lemma {:induction false} RunIsSane(start: Table, es: seq<Event>)
    requires Consistent(BooksOf(start))
    ensures Sane(RunFrom(start, es))
    decreases |es|
  {
    hide Next, Consistent, BooksOf;
    if es != [] {
      RunIsSane(start, es[..|es| - 1]);
      NextKeepsSane(RunFrom(start, es[..|es| - 1]), es[|es| - 1]);
    }
  }

  ghost predicate SerialThroughout(start: Table, es: seq<Event>)
  {
    forall n | 0 <= n <= |es| :: Serial(start, RunFrom(start, es[..n]))
  }

  ghost predicate HonestThroughout(start: Table, es: seq<Event>)
  {
    forall n | 0 <= n < |es| :: Honest(RunFrom(start, es[..n]), es[n])
  }

  /** Without any discipline: a run is serial all the way if and only if every accepted commit saw
      the counters of the rows it wrote. */
  lemma {:induction false} StaysSerialIff(start: Table, es: seq<Event>)
    requires Consistent(BooksOf(start))
    ensures SerialThroughout(start, es) <==> HonestThroughout(start, es)
    decreases |es|
  {
    hide Serial, Honest, Next, Consistent, BooksOf, RunFrom;
    if es == [] {
      assert es[..0] == [];
      RunOfNothing(start);
      StartCounts(start);
    } else {
      var front, e := es[..|es| - 1], es[|es| - 1];
      StaysSerialIff(start, front);
      assert es[..|es|] == es && es[..|es| - 1] == front;
      assert forall n | 0 <= n <= |front| :: front[..n] == es[..n];
      RunOfLast(start, es);
      RunIsSane(start, front);
      assert SerialThroughout(start, es) <==> SerialThroughout(start, front) && Serial(start, RunFrom(start, es)) by {
        assert forall n | 0 <= n <= |es| :: n <= |front| || es[..n] == es;
      }
      assert HonestThroughout(start, es) <==> HonestThroughout(start, front) && Honest(RunFrom(start, front), e);
      if SerialThroughout(start, front) {
        assert front[..|front|] == front;
        assert Serial(start, RunFrom(start, front[..|front|]));
        NextIsSerialIff(start, RunFrom(start, front), e);
      }
    }
  }

  lemma RunOfNothing(start: Table)
    ensures RunFrom(start, []) == State(start, map[], [])
  {
  }

  lemma RunOfLast(start: Table, es: seq<Event>)
    requires es != []
    ensures RunFrom(start, es) == Next(RunFrom(start, es[..|es| - 1]), es[|es| - 1])
  {
  }

  // ----- when a stale retry is accepted

  /** How far a worker's copy of a row is ahead of the row. */
  function Lead(s: State, w: nat, id: string): int
    requires id in s.rows && id in CopyOf(s, w)
  {
    CopyOf(s, w)[id].version - s.rows[id].version
  }

  /** After an aborted transaction the rows it wrote are one ahead; the others follow as before. */
  lemma AbortLeads(s: State, w: nat, batch: seq<Posting>, written: set<string>, id: string)
    requires var writes := Prepared(CopyOf(s, w), batch); writes.Some? && Current(s.rows, Restrict(writes.value, written))
    requires id in Touched(batch) && id in s.rows
    ensures var after := Next(s, Abort(w, batch, written));
      && after.rows == s.rows && id in CopyOf(s, w) && id in CopyOf(after, w)
      && Lead(after, w, id) == if id in written then 1 else Lead(s, w, id)
  {
    hide PostAll, BooksOf, Touched;
    var writes := Prepared(CopyOf(s, w), batch).value;
    assert id in writes && writes[id].version == CopyOf(s, w)[id].version;
    if id in written {
      assert id in Restrict(writes, written) && Restrict(writes, written)[id] == writes[id];
    }
  }

  ghost predicate NoEventOf(es: seq<Event>, w: nat)
  {
    forall e | e in es :: e.worker != w
  }

  /** While others run, a worker's copies stay and each row's version grows with its writers. */
  lemma {:induction false} OthersRun(s: State, es: seq<Event>, w: nat)
    requires NoEventOf(es, w)
    ensures var after := Run(s, es);
      && CopyOf(after, w) == CopyOf(s, w) && after.rows.Keys == s.rows.Keys && s.log <= after.log
      && forall id | id in s.rows :: after.rows[id].version == s.rows[id].version + Writers(after.log[|s.log|..], id)
    decreases |es|
  {
    hide Next;
    if es == [] {
      assert s.log[|s.log|..] == [];
    } else {
      var front, e := es[..|es| - 1], es[|es| - 1];
      assert e in es && forall x | x in front :: x in es;
      OthersRun(s, front, w);
      var mid := Run(s, front);
      OthersStep(mid, e, w);
      var after := Next(mid, e);
      if after.log != mid.log {
        var more := after.log[|s.log|..];
        assert more[..|more| - 1] == mid.log[|s.log|..];
      }
    }
  }

  lemma OthersStep(s: State, e: Event, w: nat)
    requires e.worker != w
    ensures var after := Next(s, e);
      && CopyOf(after, w) == CopyOf(s, w) && after.rows.Keys == s.rows.Keys
      && (after.log == s.log || (e.Commit? && after.log == s.log + [e.batch]))
      && forall id | id in s.rows :: after.rows[id].version ==
           s.rows[id].version + if after.log != s.log && id in Touched(after.log[|s.log|]) then 1 else 0
  {
    hide Prepared, Restrict, Ahead, Touched;
    if e.Commit? && Accepted(s, e.worker, e.batch) {
      PreparedKeys(CopyOf(s, e.worker), e.batch);
      assert s.log + [e.batch] != s.log by { assert |s.log + [e.batch]| == |s.log| + 1; }
    }
  }

  /** A worker that goes on with its old objects, after anything the others did, is accepted if and
      only if each row it writes was written by others exactly as often as its copy was ahead:
      once for each row of an aborted transaction. */
  lemma RetryAcceptedIff(s: State, es: seq<Event>, w: nat, batch: seq<Posting>)
    requires NoEventOf(es, w)
    ensures s.log <= Run(s, es).log
    ensures var after := Run(s, es);
      Accepted(after, w, batch) <==>
        && Prepared(CopyOf(s, w), batch).Some?
        && forall id | id in Touched(batch) ::
             id in s.rows && id in CopyOf(s, w) && Writers(after.log[|s.log|..], id) == Lead(s, w, id)
  {
    hide Run, Touched, PostAll, BooksOf, Writers;
    OthersRun(s, es, w);
    var after := Run(s, es);
    if Prepared(CopyOf(s, w), batch).Some? {
      var writes := Prepared(CopyOf(s, w), batch).value;
      PreparedKeys(CopyOf(s, w), batch);
      assert forall id | id in Touched(batch) :: id in writes && id in CopyOf(s, w) && writes[id].version == CopyOf(s, w)[id].version;
    }
  }

  // ----- a commit lost to a stale retry

  function Pay(amount: int): Posting
  {
    Move("a", "b", amount, false, true, 0.0, 1, 0)
  }

  /** Two balances after payments of the given total. */
  function PaidBooks(total: int): Books
  {
    map["a" := Account(-total, 0, total, 0, 0, 0), "b" := Account(total, total, 0, 0, 0, 0)]
  }

  function Paid(total: int, version: int): Table
  {
    map["a" := Versioned(PaidBooks(total)["a"], version), "b" := Versioned(PaidBooks(total)["b"], version)]
  }

  lemma PayPosts(total: int, amount: int)
    requires amount > 0
    ensures PostAll(PaidBooks(total), [Pay(amount)]) == Some(PaidBooks(total + amount))
  {
    var p, books := Pay(amount), PaidBooks(total);
    assert [p][..0] == [];
    assert PostAll(books, []) == Some(books);
    assert p.WellFormed() && p.Allowed(books);
    assert p.SourceAfter(books["a"]) == PaidBooks(total + amount)["a"];
    assert p.DestinationAfter(books["b"]) == PaidBooks(total + amount)["b"];
    assert books["a" := PaidBooks(total + amount)["a"]]["b" := PaidBooks(total + amount)["b"]] == PaidBooks(total + amount);
  }

  lemma BooksOfPaid(total: int, version: int)
    ensures BooksOf(Paid(total, version)) == PaidBooks(total)
  {
  }

  lemma PreparedPay(total: int, version: int, amount: int)
    requires amount > 0
    ensures Prepared(Paid(total, version), [Pay(amount)]) == Some(Paid(total + amount, version))
    ensures Touched([Pay(amount)]) == {"a", "b"}
  {
    hide PostAll;
    BooksOfPaid(total, version);
    PayPosts(total, amount);
    assert Pay(amount) in [Pay(amount)];
    assert Touched([Pay(amount)]) == {"a", "b"};
    var copy, after := Paid(total, version), PaidBooks(total + amount);
    assert (map id | id in Touched([Pay(amount)]) :: Versioned(after[id], copy[id].version)) == Paid(total + amount, version);
  }

  lemma PaidWritten(total: int, version: int, next: int, seen: int)
    ensures Current(Paid(total, version), Paid(next, version))
    ensures Written(Paid(total, version), Paid(next, version)) == Paid(next, version + 1)
    ensures Paid(seen, version) + Restrict(Paid(next, version + 1), Paid(next, version).Keys) == Paid(next, version + 1)
  {
  }

  lemma PaidAhead(total: int, version: int, next: int)
    ensures Restrict(Paid(next, version), {"a", "b"}) == Paid(next, version)
    ensures Paid(total, version) + Ahead(Paid(next, version), {"a", "b"}) == Paid(next, version + 1)
  {
  }

  lemma CommitPay(s: State, w: nat, seen: int, total: int, version: int, amount: int)
    requires amount > 0 && s.rows == Paid(total, version) && CopyOf(s, w) == Paid(seen, version)
    ensures Accepted(s, w, [Pay(amount)])
    ensures Next(s, Commit(w, [Pay(amount)])) ==
      State(Paid(seen + amount, version + 1), s.copies[w := Paid(seen + amount, version + 1)], s.log + [[Pay(amount)]])
  {
    hide Prepared, Touched, Pay, Paid, Current, Written, Restrict, CopyOf;
    PreparedPay(seen, version, amount);
    PaidWritten(total, version, seen + amount, seen);
  }

  lemma AbortPay(s: State, w: nat, total: int, version: int, amount: int)
    requires amount > 0 && s.rows == CopyOf(s, w) == Paid(total, version)
    ensures Next(s, Abort(w, [Pay(amount)], {"a", "b"})) == s.(copies := s.copies[w := Paid(total + amount, version + 1)])
  {
    hide Prepared, Touched, Pay, Paid, Current, Restrict, Ahead, CopyOf;
    PreparedPay(total, version, amount);
    PaidWritten(total, version, total + amount, total);
    PaidAhead(total, version, total + amount);
  }

  lemma ReadBoth(s: State, w: nat)
    requires s.rows == Paid(0, 0) && CopyOf(s, w) == map[]
    ensures Next(Next(s, Read(w, "a")), Read(w, "b")) == s.(copies := s.copies[w := Paid(0, 0)])
  {
    var mid := Next(s, Read(w, "a"));
    assert CopyOf(mid, w) == map["a" := s.rows["a"]];
    assert CopyOf(mid, w)["b" := s.rows["b"]] == Paid(0, 0);
  }

  lemma RunGrows(start: Table, es: seq<Event>, e: Event)
    ensures RunFrom(start, es + [e]) == Next(RunFrom(start, es), e)
  {
    assert (es + [e])[..|es|] == es;
  }

  /** Worker 1 aborts a payment of one unit, worker 2 pays two, and worker 1 retries with its old
      objects: the retry is accepted, the table holds the aborted unit twice and the two committed
      units not at all. */
  lemma StaleRetryOverwrites() returns (es: seq<Event>)
    ensures RunFrom(Paid(0, 0), es).log == [[Pay(2)], [Pay(1)]]
    ensures RunFrom(Paid(0, 0), es).rows == Paid(2, 2) && !Serial(Paid(0, 0), RunFrom(Paid(0, 0), es))
  {
    hide Next, RunFrom, Paid, Pay, Serial, Honest, Accepted, SeesCurrent;
    var start := Paid(0, 0);
    var e1: seq<Event> := [] + [Read(1, "a")];
    var e2 := e1 + [Read(1, "b")];
    var e3 := e2 + [Read(2, "a")];
    var e4 := e3 + [Read(2, "b")];
    var e5 := e4 + [Abort(1, [Pay(1)], {"a", "b"})];
    var e6 := e5 + [Commit(2, [Pay(2)])];
    es := e6 + [Commit(1, [Pay(1)])];
    RunOfNothing(start);
    RunGrows(start, [], Read(1, "a"));
    RunGrows(start, e1, Read(1, "b"));
    ReadBoth(RunFrom(start, []), 1);
    RunGrows(start, e2, Read(2, "a"));
    RunGrows(start, e3, Read(2, "b"));
    ReadBoth(RunFrom(start, e2), 2);
    RunGrows(start, e4, Abort(1, [Pay(1)], {"a", "b"}));
    AbortPay(RunFrom(start, e4), 1, 0, 0, 1);
    RunGrows(start, e5, Commit(2, [Pay(2)]));
    CommitPay(RunFrom(start, e5), 2, 0, 0, 0, 2);
    RunGrows(start, e6, Commit(1, [Pay(1)]));
    CommitPay(RunFrom(start, e6), 1, 1, 2, 1, 1);
    assert !Serial(start, RunFrom(start, es)) by { PaidTwoNotThree(RunFrom(start, es)); }
  }

  lemma PaidTwoNotThree(s: State)
    requires s.log == [[Pay(2)], [Pay(1)]] && s.rows == Paid(2, 2)
    ensures !Serial(Paid(0, 0), s)
  {
    hide PostAll, Pay, Counted;
    var first, second := [Pay(2)], [Pay(1)];
    assert s.log[..1] == [first] && [first][..0] == [];
    assert Flatten([]) == [] && Flatten([first]) == [] + first;
    assert Flatten(s.log) == first + second;
    BooksOfPaid(0, 0);
    BooksOfPaid(2, 2);
    PostAllSplit(PaidBooks(0), first, second);
    PayPosts(0, 2);
    PayPosts(2, 1);
    assert PaidBooks(2)["b"].credit == 2 && PaidBooks(3)["b"].credit == 3;
  }

  /** A commit that fails the version check, or a batch that is refused in memory, leaves every
      row and the log as they were; so does an abort. */
  lemma FailedCommitChangesNothing(s: State, worker: nat, batch: seq<Posting>, written: set<string>)
    ensures !Accepted(s, worker, batch) ==> Next(s, Commit(worker, batch)).rows == s.rows && Next(s, Commit(worker, batch)).log == s.log
    ensures Next(s, Abort(worker, batch, written)).rows == s.rows && Next(s, Abort(worker, batch, written)).log == s.log
  {
  }

  /** Together with the ledger's own invariants: under every such interleaving, from zero balances,
      credits equal debits and no balance falls below the overdraft floor. */
  lemma {:induction false} ConcurrentBooksAreSound(start: Table, es: seq<Event>, floor: int)
    requires Disciplined(es) && Opening(BooksOf(start)) && floor >= 0
    requires forall p | p in Flatten(RunFrom(start, es).log) :: CappedBy(p, floor)
    ensures var books := BooksOf(RunFrom(start, es).rows);
            DoubleEntry(books) && Consistent(books) && AboveFloor(books, floor)
  {
    var s := RunFrom(start, es);
    hide RunFrom, Disciplined, DoubleEntry, Consistent, AboveFloor, CappedBy, Counted;
    RunIsSerial(start, es);
    RunKeepsDoubleEntry(BooksOf(start), Flatten(s.log), BooksOf(s.rows));
    RunStaysAboveFloor(BooksOf(start), Flatten(s.log), BooksOf(s.rows), floor);
  }
}
