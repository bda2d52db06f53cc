/** Balance arithmetic: transfers, holds, commits and rollbacks (model/model.go), and the two-leg
    transition that the execution path applies (internal/core/transaction_execution.go). */
module Ledger {
  import opened Basics
  import opened Amounts

  // ----- values

  /** The persisted counters of a balance, in minor units. */
  datatype Account = Account(balance: int, credit: int, debit: int,
                             inflightBalance: int, inflightCredit: int, inflightDebit: int)
  {
    /** Each net counter is credits minus debits. */
    predicate Consistent() {
      balance == credit - debit && inflightBalance == inflightCredit - inflightDebit
    }

    /** Settled funds not already reserved by a hold. */
    function Spendable(): int {
      balance - inflightDebit
    }

    function Computed(inflight: bool): Account {
      if inflight then this.(inflightBalance := inflightCredit - inflightDebit)
      else this.(balance := credit - debit)
    }

    function WithDebit(amount: int, inflight: bool): Account {
      if inflight then this.(inflightDebit := inflightDebit + amount) else this.(debit := debit + amount)
    }

    function WithCredit(amount: int, inflight: bool): Account {
      if inflight then this.(inflightCredit := inflightCredit + amount) else this.(credit := credit + amount)
    }

    function Debited(amount: int, inflight: bool): Account {
      WithDebit(amount, inflight).Computed(inflight)
    }

    function Credited(amount: int, inflight: bool): Account {
      WithCredit(amount, inflight).Computed(inflight)
    }

    function DebitSettled(amount: int): Account {
      this.(inflightDebit := inflightDebit - amount, debit := debit + amount).Computed(true).Computed(false)
    }

    function CreditSettled(amount: int): Account {
      this.(inflightCredit := inflightCredit - amount, credit := credit + amount).Computed(true).Computed(false)
    }

    function DebitReleased(amount: int): Account {
      this.(inflightDebit := inflightDebit - amount).Computed(true)
    }

    function CreditReleased(amount: int): Account {
      this.(inflightCredit := inflightCredit - amount).Computed(true)
    }
  }

  const NEW_ACCOUNT := Account(0, 0, 0, 0, 0, 0)

  /** An overdraft limit in minor units, rounded to the nearest unit. */
  function Cap(limit: real, precision: int): int
  {
    (limit * precision as real + 0.5).Floor
  }

  /** Whether a source may be debited. */
  predicate CanProcess(source: Account, queued: int, amount: int, allowOverdraft: bool, limit: real, precision: int)
  {
    var available := source.balance - source.inflightDebit - queued;
    if allowOverdraft && limit == 0.0 then true
    else if available >= amount then true
    else if limit > 0.0 then available - amount >= -Cap(limit, precision)
    else false
  }

  /** How far below zero a debit may leave the spendable funds. */
  function Allowance(limit: real, precision: int): int
  {
    if limit > 0.0 then Cap(limit, precision) else 0
  }

  /** A debit is refused exactly when it is not unlimited and would leave less than the negated
      allowance, holds and queued debits included; the overdraft flag alone plays no part. */
  lemma FundsRule(source: Account, queued: int, amount: int, allowOverdraft: bool, limit: real, precision: int)
    requires precision > 0 && limit >= 0.0
    ensures Allowance(limit, precision) >= 0
    ensures CanProcess(source, queued, amount, allowOverdraft, limit, precision) <==>
            (allowOverdraft && limit == 0.0) ||
            source.Spendable() - queued - amount >= -Allowance(limit, precision)
  {
    assert limit * precision as real >= 0.0;
  }

  // ----- the balance object

  class Balance {
    const id: string
    var version: int
    var balance: Option<int>
    var creditBalance: Option<int>
    var debitBalance: Option<int>
    var inflightBalance: Option<int>
    var inflightCreditBalance: Option<int>
    var inflightDebitBalance: Option<int>
    var queuedDebitBalance: Option<int>

    /** The counters, a nil one reading as zero. */
    function View(): Account
      reads this
    {
      Account(balance.GetOr(0), creditBalance.GetOr(0), debitBalance.GetOr(0),
              inflightBalance.GetOr(0), inflightCreditBalance.GetOr(0), inflightDebitBalance.GetOr(0))
    }

    predicate Initialized()
      reads this
    {
      && balance.Some? && creditBalance.Some? && debitBalance.Some?
      && inflightBalance.Some? && inflightCreditBalance.Some? && inflightDebitBalance.Some?
    }

    constructor (id: string, account: Account, version: int)
      ensures this.id == id && this.version == version && View() == account && Initialized()
      ensures queuedDebitBalance == None
    {
      this.id, this.version := id, version;
      balance, creditBalance, debitBalance := Some(account.balance), Some(account.credit), Some(account.debit);
      inflightBalance := Some(account.inflightBalance);
      inflightCreditBalance, inflightDebitBalance := Some(account.inflightCredit), Some(account.inflightDebit);
      queuedDebitBalance := None;
    }

    method InitializeBalanceFields()
      modifies this
      ensures Initialized() && View() == old(View())
      ensures version == old(version) && queuedDebitBalance == old(queuedDebitBalance)
    {
      inflightDebitBalance := Some(inflightDebitBalance.GetOr(0));
      inflightCreditBalance := Some(inflightCreditBalance.GetOr(0));
      inflightBalance := Some(inflightBalance.GetOr(0));
      debitBalance := Some(debitBalance.GetOr(0));
      creditBalance := Some(creditBalance.GetOr(0));
      balance := Some(balance.GetOr(0));
    }

    method AddCredit(amount: int, inflight: bool)
      modifies this
      ensures View() == old(View()).WithCredit(amount, inflight) && Initialized()
      ensures version == old(version) && queuedDebitBalance == old(queuedDebitBalance)
    {
      InitializeBalanceFields();
      if inflight {
        inflightCreditBalance := Some(inflightCreditBalance.value + amount);
      } else {
        creditBalance := Some(creditBalance.value + amount);
      }
    }

    method AddDebit(amount: int, inflight: bool)
      modifies this
      ensures View() == old(View()).WithDebit(amount, inflight) && Initialized()
      ensures version == old(version) && queuedDebitBalance == old(queuedDebitBalance)
    {
      InitializeBalanceFields();
      if inflight {
        inflightDebitBalance := Some(inflightDebitBalance.value + amount);
      } else {
        debitBalance := Some(debitBalance.value + amount);
      }
    }

    method ComputeBalance(inflight: bool)
      modifies this
      ensures View() == old(View()).Computed(inflight) && Initialized()
      ensures version == old(version) && queuedDebitBalance == old(queuedDebitBalance)
    {
      InitializeBalanceFields();
      if inflight {
        inflightBalance := Some(inflightCreditBalance.value - inflightDebitBalance.value);
      } else {
        balance := Some(creditBalance.value - debitBalance.value);
      }
    }

    method CanProcessTransaction(t: Transaction, amount: int) returns (ok: bool)
      modifies this
      ensures ok <==> CanProcess(old(View()), old(queuedDebitBalance).GetOr(0), amount,
                                 t.allowOverdraft, t.overdraftLimit, t.precision)
      ensures View() == old(View()) && version == old(version) && queuedDebitBalance == old(queuedDebitBalance)
    {
      hide Cap;
      if t.allowOverdraft && t.overdraftLimit == 0.0 {
        return true;
      }
      InitializeBalanceFields();
      var available := View().balance - View().inflightDebit;
      if queuedDebitBalance.Some? {
        available := available - queuedDebitBalance.value;
      }
      if available >= amount {
        return true;
      }
      if t.overdraftLimit > 0.0 {
        var resulting := available - amount;
        return resulting >= -Cap(t.overdraftLimit, t.precision);
      }
      return false;
    }

    method CommitInflightDebit(t: Transaction) returns (ok: bool)
      modifies this, t`preciseAmount, t`amountString, t`amount, t`precision
      ensures t.View() == Applied(old(t.View())).0
      ensures var amount := Applied(old(t.View())).1;
              && (ok <==> 0 < amount <= old(View()).inflightDebit)
              && View() == (if ok then old(View()).DebitSettled(amount) else old(View()))
      ensures version == old(version)
    {
      var amount := t.ApplyPrecision();
      ok := SettleDebit(amount);
    }

    method SettleDebit(amount: int) returns (ok: bool)
      modifies this
      ensures ok <==> 0 < amount <= old(View()).inflightDebit
      ensures View() == (if ok then old(View()).DebitSettled(amount) else old(View()))
      ensures version == old(version)
    {
      InitializeBalanceFields();
      if amount <= 0 || inflightDebitBalance.value < amount {
        return false;
      }
      inflightDebitBalance := Some(inflightDebitBalance.value - amount);
      debitBalance := Some(debitBalance.value + amount);
      ComputeBalance(true);
      ComputeBalance(false);
      return true;
    }

    method CommitInflightCredit(t: Transaction) returns (ok: bool)
      modifies this, t`preciseAmount, t`amountString, t`amount, t`precision
      ensures t.View() == Applied(old(t.View())).0
      ensures var amount := Applied(old(t.View())).1;
              && (ok <==> 0 < amount <= old(View()).inflightCredit)
              && View() == (if ok then old(View()).CreditSettled(amount) else old(View()))
      ensures version == old(version)
    {
      var amount := t.ApplyPrecision();
      ok := SettleCredit(amount);
    }

    method SettleCredit(amount: int) returns (ok: bool)
      modifies this
      ensures ok <==> 0 < amount <= old(View()).inflightCredit
      ensures View() == (if ok then old(View()).CreditSettled(amount) else old(View()))
      ensures version == old(version)
    {
      InitializeBalanceFields();
      if amount <= 0 || inflightCreditBalance.value < amount {
        return false;
      }
      inflightCreditBalance := Some(inflightCreditBalance.value - amount);
      creditBalance := Some(creditBalance.value + amount);
      ComputeBalance(true);
      ComputeBalance(false);
      return true;
    }

    method RollbackInflightDebit(amount: int) returns (ok: bool)
      modifies this
      ensures ok <==> 0 < amount <= old(View()).inflightDebit
      ensures View() == (if ok then old(View()).DebitReleased(amount) else old(View()))
      ensures version == old(version)
    {
      InitializeBalanceFields();
      if amount <= 0 || inflightDebitBalance.value < amount {
        return false;
      }
      inflightDebitBalance := Some(inflightDebitBalance.value - amount);
      ComputeBalance(true);
      return true;
    }

    method RollbackInflightCredit(amount: int) returns (ok: bool)
      modifies this
      ensures ok <==> 0 < amount <= old(View()).inflightCredit
      ensures View() == (if ok then old(View()).CreditReleased(amount) else old(View()))
      ensures version == old(version)
    {
      InitializeBalanceFields();
      if amount <= 0 || inflightCreditBalance.value < amount {
        return false;
      }
      inflightCreditBalance := Some(inflightCreditBalance.value - amount);
      ComputeBalance(true);
      return true;
    }
  }

  /** Moves one amount from source to destination, settled or as a hold. A refused transaction
      changes neither balance. */
  method UpdateBalances(t: Transaction, source: Balance, destination: Balance) returns (ok: bool)
    requires source != destination
    modifies t`preciseAmount, t`amountString, t`amount, t`precision, source, destination
    ensures var (money, amount) := Applied(old(t.View()));
            && (ok <==> Chargeable(old(t.View())) &&
                        CanProcess(old(source.View()), old(source.queuedDebitBalance).GetOr(0), amount,
                                   t.allowOverdraft, t.overdraftLimit, money.precision))
            && (ok ==> source.View() == old(source.View()).Debited(amount, t.inflight)
                       && destination.View() == old(destination.View()).Credited(amount, t.inflight))
    ensures !ok ==> source.View() == old(source.View()) && destination.View() == old(destination.View())
    ensures source.version == old(source.version) && destination.version == old(destination.version)
  {
    var amount := t.ApplyPrecisionChecked();
    if amount.None? {
      return false;
    }
    t.preciseAmount := Some(amount.value);
    var enough := source.CanProcessTransaction(t, amount.value);
    if !enough {
      return false;
    }
    source.InitializeBalanceFields();
    destination.InitializeBalanceFields();
    source.AddDebit(amount.value, t.inflight);
    source.ComputeBalance(t.inflight);
    destination.AddCredit(amount.value, t.inflight);
    destination.ComputeBalance(t.inflight);
    return true;
  }

  /** Both reservations cover the amount. */
  predicate Reserved(source: Account, destination: Account, amount: int)
  {
    0 < amount <= source.inflightDebit && amount <= destination.inflightCredit
  }

  /** Settling a hold on both sides. Every accepted settlement moves both legs; a failing one can
      leave only the source leg moved in memory, exactly when the amount's decimal form cannot be
      validated a second time (see `Amounts.AppliedTwice`). */
  method SettleHold(t: Transaction, source: Balance, destination: Balance) returns (ok: bool)
    requires source != destination
    modifies t`preciseAmount, t`amountString, t`amount, t`precision, source, destination
    ensures var amount := old(t.preciseAmount).GetOr(0);
            var reserved := Reserved(old(source.View()), old(destination.View()), amount);
            var valid := ValidMoney(old(t.View()));
            var again := Settleable(amount, if old(t.precision) > 0 then old(t.precision) else 1);
            && (ok <==> reserved && valid && again)
            && source.View() == (if reserved && valid then old(source.View()).DebitSettled(amount) else old(source.View()))
            && destination.View() == (if ok then old(destination.View()).CreditSettled(amount) else old(destination.View()))
  {
    if t.preciseAmount.None? || t.preciseAmount.value <= 0 {
      return false;
    }
    var amount := t.preciseAmount.value;
    source.InitializeBalanceFields();
    destination.InitializeBalanceFields();
    if source.inflightDebitBalance.value < amount || destination.inflightCreditBalance.value < amount {
      return false;
    }
    ghost var money := t.View();
    ok := source.CommitInflightDebit(t);
    if !ok {
      return false;
    }
    AppliedTwice(money);
    ok := destination.CommitInflightCredit(t);
  }

  /** Releasing a hold on both sides: both legs or neither. */
  method ReleaseHold(amount: int, source: Balance, destination: Balance) returns (ok: bool)
    requires source != destination
    modifies source, destination
    ensures ok <==> Reserved(old(source.View()), old(destination.View()), amount)
    ensures source.View() == (if ok then old(source.View()).DebitReleased(amount) else old(source.View()))
    ensures destination.View() == (if ok then old(destination.View()).CreditReleased(amount) else old(destination.View()))
  {
    if amount <= 0 {
      return false;
    }
    source.InitializeBalanceFields();
    destination.InitializeBalanceFields();
    if source.inflightDebitBalance.value < amount || destination.inflightCreditBalance.value < amount {
      return false;
    }
    ok := source.RollbackInflightDebit(amount);
    ok := destination.RollbackInflightCredit(amount);
  }

  /** Settling validates the amount a second time, see `SettleHold`. */
  predicate Settleable(amount: int, precision: int)
  {
    amount >= 0 && precision > 0 && Reapplicable(amount, precision)
  }

  // ----- postings on the books

  type Books = map<string, Account>

  /** One posting: a transfer or hold with its overdraft terms, or the settlement or release of
      part of a hold. `queued` is the source's queued debit total when that check is enabled. */
  datatype Posting =
    | Move(source: string, destination: string, amount: int, inflight: bool,
           allowOverdraft: bool, limit: real, precision: int, queued: int)
    | Settle(source: string, destination: string, amount: int, precision: int)
    | Release(source: string, destination: string, amount: int)
  {
    /** The two legs name different balances and amounts are positive. */
    predicate WellFormed() {
      source != destination && amount > 0 && (Move? ==> limit >= 0.0 && queued >= 0) && (Release? || precision > 0)
    }

    predicate Allowed(books: Books)
      requires source in books && destination in books
    {
      match this
      case Move(_, _, _, _, allow, _, _, _) => CanProcess(books[source], queued, amount, allow, limit, precision)
      case Settle(_, _, _, _) => Reserved(books[source], books[destination], amount) && Settleable(amount, precision)
      case Release(_, _, _) => Reserved(books[source], books[destination], amount)
    }

    function SourceAfter(a: Account): Account {
      match this
      case Move(_, _, _, inflight, _, _, _, _) => a.Debited(amount, inflight)
      case Settle(_, _, _, _) => a.DebitSettled(amount)
      case Release(_, _, _) => a.DebitReleased(amount)
    }

    function DestinationAfter(a: Account): Account {
      match this
      case Move(_, _, _, inflight, _, _, _, _) => a.Credited(amount, inflight)
      case Settle(_, _, _, _) => a.CreditSettled(amount)
      case Release(_, _, _) => a.CreditReleased(amount)
    }
  }

  /** Applies a posting to the books, or refuses it. */
  function Post(books: Books, p: Posting): Option<Books>
  {
    if p.source in books && p.destination in books && p.WellFormed() && p.Allowed(books) then
      Some(books[p.source := p.SourceAfter(books[p.source])]
                [p.destination := p.DestinationAfter(books[p.destination])])
    else None
  }

  /** Applies postings one at a time, refusing all if one is refused. */
  function PostAll(books: Books, ps: seq<Posting>): Option<Books>
  {
    if ps == [] then Some(books)
    else
      var front := PostAll(books, ps[..|ps| - 1]);
      if front.None? then None else Post(front.value, ps[|ps| - 1])
  }

  lemma {:induction false} PostAllSplit(books: Books, ps: seq<Posting>, qs: seq<Posting>)
    ensures PostAll(books, ps + qs) ==
            if PostAll(books, ps).None? then None else PostAll(PostAll(books, ps).value, qs)
    decreases |qs|
  {
    if qs == [] {
      assert ps + qs == ps;
    } else {
      var last := |qs| - 1;
      PostAllSplit(books, ps, qs[..last]);
      assert (ps + qs)[..|ps + qs| - 1] == ps + qs[..last];
    }
  }
}
