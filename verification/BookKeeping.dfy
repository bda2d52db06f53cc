/** What every posting keeps: double entry over all balances, and the solvency floor. */
module BookKeeping {
  import opened Basics
  import opened Sums
  import opened Ledger

  // ----- totals over all balances

  ghost function Column(books: Books, f: Account -> int): map<string, int>
  {
    map id | id in books :: f(books[id])
  }

  ghost function Sum(books: Books, f: Account -> int): int
  {
    Total(Column(books, f))
  }

  lemma SumUpdate(books: Books, id: string, a: Account, f: Account -> int)
    requires id in books
    ensures Sum(books[id := a], f) == Sum(books, f) - f(books[id]) + f(a)
  {
    Put(Column(books, f), id, f(a));
    assert Column(books[id := a], f) == Column(books, f)[id := f(a)];
  }

  function Credit(a: Account): int { a.credit }
  function Debit(a: Account): int { a.debit }
  function InflightCredit(a: Account): int { a.inflightCredit }
  function InflightDebit(a: Account): int { a.inflightDebit }

  /** Credits equal debits, settled and inflight, over all balances together. */
  ghost predicate DoubleEntry(books: Books)
  {
    Sum(books, Credit) == Sum(books, Debit) && Sum(books, InflightCredit) == Sum(books, InflightDebit)
  }

  ghost predicate Consistent(books: Books)
  {
    forall id | id in books :: books[id].Consistent() && books[id].inflightCredit >= 0 && books[id].inflightDebit >= 0
  }

  /** No balance has less than -floor left after its holds. */
  ghost predicate AboveFloor(books: Books, floor: int)
  {
    forall id | id in books :: books[id].Spendable() >= -floor
  }

  /** The posting uses no unlimited overdraft, and its cap is at most `floor` minor units. */
  predicate CappedBy(p: Posting, floor: int)
  {
    p.Move? ==> (p.allowOverdraft ==> p.limit > 0.0) && (p.limit > 0.0 ==> Cap(p.limit, p.precision) <= floor)
  }

  ghost predicate Opening(books: Books)
  {
    forall id | id in books :: books[id] == NEW_ACCOUNT
  }

  lemma OpeningHolds(books: Books, floor: int)
    requires Opening(books) && floor >= 0
    ensures DoubleEntry(books) && Consistent(books) && AboveFloor(books, floor)
  {
    Zero(Column(books, Credit));
    Zero(Column(books, Debit));
    Zero(Column(books, InflightCredit));
    Zero(Column(books, InflightDebit));
  }

  // ----- one posting

  /** Each column changes by what the posting adds to the two legs. */
  lemma SumPosted(books: Books, p: Posting, f: Account -> int)
    requires Post(books, p).Some?
    ensures Sum(Post(books, p).value, f) == Sum(books, f)
              + f(p.SourceAfter(books[p.source])) - f(books[p.source])
              + f(p.DestinationAfter(books[p.destination])) - f(books[p.destination])
  {
    var mid := books[p.source := p.SourceAfter(books[p.source])];
    SumUpdate(books, p.source, p.SourceAfter(books[p.source]), f);
    SumUpdate(mid, p.destination, p.DestinationAfter(books[p.destination]), f);
  }

  /** Both legs of a posting carry the same amount, so the totals stay equal. */
  lemma PostKeepsDoubleEntry(books: Books, p: Posting, after: Books)
    requires Post(books, p) == Some(after)
    ensures DoubleEntry(books) ==> DoubleEntry(after)
  {
    SumPosted(books, p, Credit);
    SumPosted(books, p, Debit);
    SumPosted(books, p, InflightCredit);
    SumPosted(books, p, InflightDebit);
  }

  lemma PostKeepsConsistent(books: Books, p: Posting, after: Books)
    requires Post(books, p) == Some(after) && Consistent(books)
    ensures Consistent(after) && after.Keys == books.Keys
  {
  }

  lemma PostKeepsFloor(books: Books, p: Posting, after: Books, floor: int)
    requires Post(books, p) == Some(after) && Consistent(books)
    requires floor >= 0 && CappedBy(p, floor) && AboveFloor(books, floor)
    ensures AboveFloor(after, floor)
  {
  }

  // ----- whole runs

  /** Every run from zero balances conserves both pairs of totals, whatever its overdrafts. */
  lemma {:induction false} RunKeepsDoubleEntry(opening: Books, ps: seq<Posting>, closing: Books)
    requires Opening(opening) && PostAll(opening, ps) == Some(closing)
    ensures DoubleEntry(closing) && Consistent(closing) && closing.Keys == opening.Keys
    decreases |ps|
  {
    if ps == [] {
      OpeningHolds(opening, 0);
    } else {
      var front, last := ps[..|ps| - 1], ps[|ps| - 1];
      var before := PostAll(opening, front).value;
      RunKeepsDoubleEntry(opening, front, before);
      PostKeepsDoubleEntry(before, last, closing);
      PostKeepsConsistent(before, last, closing);
    }
  }

  /** Without unlimited overdrafts and with caps of at most `floor`, no reachable state leaves a
      balance below -floor once its holds are subtracted; commits and voids included. */
  lemma {:induction false} RunStaysAboveFloor(opening: Books, ps: seq<Posting>, closing: Books, floor: int)
    requires Opening(opening) && PostAll(opening, ps) == Some(closing)
    requires floor >= 0 && forall p | p in ps :: CappedBy(p, floor)
    ensures AboveFloor(closing, floor)
    decreases |ps|
  {
    if ps == [] {
      OpeningHolds(opening, floor);
    } else {
      var front, last := ps[..|ps| - 1], ps[|ps| - 1];
      var before := PostAll(opening, front).value;
      RunStaysAboveFloor(opening, front, before, floor);
      RunKeepsDoubleEntry(opening, front, before);
      PostKeepsFloor(before, last, closing, floor);
    }
  }

  /** The floor is exact: a transfer can bring a fresh balance down to it. */
  lemma FloorIsReached(floor: int)
    requires floor > 0
    ensures var opening := map["a" := NEW_ACCOUNT, "b" := NEW_ACCOUNT];
            var p := Move("a", "b", floor, false, false, floor as real, 1, 0);
            && CappedBy(p, floor)
            && PostAll(opening, [p]).Some? && PostAll(opening, [p]).value["a"].Spendable() == -floor
  {
    var opening := map["a" := NEW_ACCOUNT, "b" := NEW_ACCOUNT];
    var p := Move("a", "b", floor, false, false, floor as real, 1, 0);
    assert Cap(floor as real, 1) == floor;
    assert [p][..0] == [];
    assert PostAll(opening, [p]) == Post(opening, p);
  }
}
