/** The account grain: a running balance and an append-only journal of
    events, changed only through ApplyEvent after a command's guards pass. */
module AccountGrains {
  import opened Decimals
  import opened AccountEvents

  /** The exceptions the grain's commands throw. */
  datatype Exception =
    | InvalidOperationException(message: string)
    | ArgumentNullException(paramName: string)

  /** How an awaited call ends: with a value, or with the exception it threw. */
  datatype Result<T> = Ok(value: T) | Thrown(exception: Exception)

  /** What every successful command returns. */
  const Void: int := 0

  const DepositNotPositive := InvalidOperationException("Deposit amount must be positive.")
  const WithdrawalNotPositive := InvalidOperationException("Withdrawal amount must be positive.")
  const InsufficientFunds := InvalidOperationException("Insufficient funds.")
  const TransferNotPositive := InvalidOperationException("Transfer amount must be positive.")
  const MissingDestination := ArgumentNullException("toAccountId")

  /** The line the transaction history shows for one event. */
  function Summary(evt: AccountEvent): (line: string)
    ensures line == [] <==> evt.TransferEvent?
  {
    match evt
    case DepositEvent(a) => "Deposit of " + ToString(a)
    case WithdrawEvent(a) => "Withdraw of " + ToString(a)
    case TransferEvent(_, _) => ""
  }

  /** The journal projected line by line, in journal order. */
  function History(events: seq<AccountEvent>): seq<string>
  {
    seq(|events|, i requires 0 <= i < |events| => Summary(events[i]))
  }

  lemma DropPrefix(prefix: string, s: string, t: string)
    requires prefix + s == prefix + t
    ensures s == t
  {
    assert s == (prefix + s)[|prefix|..];
    assert t == (prefix + t)[|prefix|..];
  }

  lemma SummaryFirstChar(evt: AccountEvent)
    requires !evt.TransferEvent?
    ensures |Summary(evt)| > 0 && Summary(evt)[0] == if evt.DepositEvent? then 'D' else 'W'
  {
  }

  /** A deposit or withdrawal line names its event: kind and amount,
      down to the amount's scale, can be read back from it. */
  lemma SummaryInjective(e1: AccountEvent, e2: AccountEvent)
    requires !e1.TransferEvent? && !e2.TransferEvent?
    requires Summary(e1) == Summary(e2)
    ensures e1 == e2
  {
    SummaryFirstChar(e1);
    SummaryFirstChar(e2);
    assert e1.DepositEvent? == e2.DepositEvent?;
    if e1.DepositEvent? {
      DropPrefix("Deposit of ", ToString(e1.amount), ToString(e2.amount));
    } else {
      DropPrefix("Withdraw of ", ToString(e1.amount), ToString(e2.amount));
    }
    ToStringInjective(e1.amount, e2.amount);
  }

  /** Events with the same history line move any balance alike. */
  lemma ApplySameSummary(acc: Decimal, e1: AccountEvent, e2: AccountEvent)
    requires Summary(e1) == Summary(e2)
    ensures Apply(acc, e1) == Apply(acc, e2)
  {
    if !e1.TransferEvent? {
      SummaryInjective(e1, e2);
    }
  }

  lemma {:induction false} FoldFromSameSummaries(acc: Decimal, j1: seq<AccountEvent>, j2: seq<AccountEvent>)
    requires |j1| == |j2|
    requires forall i :: 0 <= i < |j1| ==> Summary(j1[i]) == Summary(j2[i])
    ensures FoldFrom(acc, j1) == FoldFrom(acc, j2)
    decreases |j1|
  {
    if j1 != [] {
      ApplySameSummary(acc, j1[0], j2[0]);
      var t1, t2 := j1[1..], j2[1..];
      assert forall i :: 0 <= i < |t1| ==> t1[i] == j1[i + 1] && t2[i] == j2[i + 1];
      FoldFromSameSummaries(Apply(acc, j1[0]), t1, t2);
    }
  }

  /** The history loses only the transfer lines, which do not move the
      balance: two journals with the same history project the same balance. */
  lemma HistoryDeterminesBalance(j1: seq<AccountEvent>, j2: seq<AccountEvent>)
    requires History(j1) == History(j2)
    ensures Fold(j1) == Fold(j2)
  {
    assert |j1| == |History(j1)| == |History(j2)| == |j2|;
    assert forall i :: 0 <= i < |j1| ==> Summary(j1[i]) == History(j1)[i];
    FoldFromSameSummaries(Zero, j1, j2);
  }

  /** Appending to the journal appends one line and keeps the earlier ones. */
  lemma HistoryAppend(events: seq<AccountEvent>, evt: AccountEvent)
    ensures History(events + [evt]) == History(events) + [Summary(evt)]
  {
    assert forall i :: 0 <= i < |events| ==> (events + [evt])[i] == events[i];
  }

  class AccountGrain {
    /** The grain's key: the account id other grains reach it by. */
    const key: string
    /** The stored account state's balance. */
    var balance: Decimal
    /** The stored event journal. */
    var journal: seq<AccountEvent>

    /** The balance is the journal's projection, and every journal event
        passed its command's guards. */
    ghost predicate Consistent()
      reads this
    {
      balance == Fold(journal) && ValidJournal(journal)
    }

    /** Activation with the state the two persistent stores hold. */
    constructor (key: string, storedBalance: Decimal, storedJournal: seq<AccountEvent>)
      ensures this.key == key && balance == storedBalance && journal == storedJournal
      ensures storedBalance == Fold(storedJournal) && ValidJournal(storedJournal) ==> Consistent()
      ensures storedBalance == Zero && storedJournal == [] ==> Consistent()
    {
      this.key := key;
      balance := storedBalance;
      journal := storedJournal;
    }

    /** Moves the balance by the event's kind and appends the event. */
    method ApplyEvent(evt: AccountEvent)
      modifies this
      ensures balance == Apply(old(balance), evt)
      ensures journal == old(journal) + [evt]
      ensures old(balance == Fold(journal)) ==> balance == Fold(journal)
    {
      FoldAppend(journal, evt);
      balance := Apply(balance, evt);
      journal := journal + [evt];
    }

    method Deposit(amount: Decimal) returns (r: Result<int>)
      modifies this
      ensures Value(amount) <= 0.0 ==>
        r == Thrown(DepositNotPositive) && unchanged(this)
      ensures Value(amount) > 0.0 ==>
        r == Ok(Void) && balance == Add(old(balance), amount)
        && journal == old(journal) + [DepositEvent(amount)]
      ensures Value(balance) == Value(old(balance)) + (if r.Ok? then Value(amount) else 0.0)
      ensures Value(old(balance)) >= 0.0 ==> Value(balance) >= 0.0
      ensures old(Consistent()) ==> Consistent()
    {
      if LessOrEqual(amount, Zero) {
        r := Thrown(DepositNotPositive);
      } else {
        if Consistent() {
          RecordAccepted(journal, DepositEvent(amount));
        }
        ApplyEvent(DepositEvent(amount));
        r := Ok(Void);
      }
    }

    method Withdraw(amount: Decimal) returns (r: Result<int>)
      modifies this
      ensures Value(amount) <= 0.0 ==>
        r == Thrown(WithdrawalNotPositive) && unchanged(this)
      ensures Value(amount) > 0.0 && Value(old(balance)) < Value(amount) ==>
        r == Thrown(InsufficientFunds) && unchanged(this)
      ensures Value(amount) > 0.0 && Value(amount) <= Value(old(balance)) ==>
        r == Ok(Void) && balance == Sub(old(balance), amount)
        && journal == old(journal) + [WithdrawEvent(amount)]
      ensures Value(balance) == Value(old(balance)) - (if r.Ok? then Value(amount) else 0.0)
      ensures Value(old(balance)) >= 0.0 ==> Value(balance) >= 0.0
      ensures old(Consistent()) ==> Consistent()
    {
      if LessOrEqual(amount, Zero) {
        r := Thrown(WithdrawalNotPositive);
      } else if Less(balance, amount) {
        r := Thrown(InsufficientFunds);
      } else {
        if Consistent() {
          RecordAccepted(journal, WithdrawEvent(amount));
        }
        ApplyEvent(WithdrawEvent(amount));
        r := Ok(Void);
      }
    }

    /** Withdraws here, deposits on the destination grain, then records the
        transfer here. The destination is the grain the key toAccountId
        resolves to, a different grain with a different key from this one. */
    method Transfer(toAccountId: string, amount: Decimal, toAccount: AccountGrain) returns (r: Result<int>)
      requires toAccount != this
      requires toAccountId != [] ==> toAccount.key == toAccountId && toAccountId != key
      modifies this, toAccount
      ensures toAccountId == [] ==>
        r == Thrown(MissingDestination) && unchanged(this) && unchanged(toAccount)
      ensures toAccountId != [] && Value(amount) <= 0.0 ==>
        r == Thrown(TransferNotPositive) && unchanged(this) && unchanged(toAccount)
      ensures toAccountId != [] && Value(amount) > 0.0 && Value(old(balance)) < Value(amount) ==>
        r == Thrown(InsufficientFunds) && unchanged(this) && unchanged(toAccount)
      ensures toAccountId != [] && Value(amount) > 0.0 && Value(amount) <= Value(old(balance)) ==>
        r == Ok(Void)
        && balance == Sub(old(balance), amount)
        && journal == old(journal) + [WithdrawEvent(amount), TransferEvent(toAccountId, amount)]
        && toAccount.balance == Add(old(toAccount.balance), amount)
        && toAccount.journal == old(toAccount.journal) + [DepositEvent(amount)]
      ensures Value(balance) + Value(toAccount.balance)
           == Value(old(balance)) + Value(old(toAccount.balance))
      ensures Value(old(balance)) >= 0.0 ==> Value(balance) >= 0.0
      ensures Value(old(toAccount.balance)) >= 0.0 ==> Value(toAccount.balance) >= 0.0
      ensures old(Consistent()) ==> Consistent()
      ensures old(toAccount.Consistent()) ==> toAccount.Consistent()
    {
      if toAccountId == [] {
        r := Thrown(MissingDestination);
      } else if LessOrEqual(amount, Zero) {
        r := Thrown(TransferNotPositive);
      } else {
        r := Withdraw(amount);
        if r.Ok? {
          r := toAccount.Deposit(amount);
          if r.Ok? {
            var evt := TransferEvent(toAccountId, amount);
            if Consistent() {
              RecordTransfer(journal, toAccountId, amount);
            }
            ApplyEvent(evt);
            r := Ok(Void);
          }
        }
      }
    }

    /** The current balance; for a consistent account, the journal's
        projection, which is never negative. */
    function GetBalance(): (b: Decimal)
      reads this
      ensures Consistent() ==> b == Fold(journal) && Value(b) >= 0.0
    {
      AdmissibleNonNegative(journal);
      balance
    }

    /** One line per journal event, in journal order. */
    function GetTransactionHistory(): (h: seq<string>)
      reads this
      ensures |h| == |journal|
      ensures forall i :: 0 <= i < |journal| && journal[i].DepositEvent? ==>
        h[i] == "Deposit of " + ToString(journal[i].amount)
      ensures forall i :: 0 <= i < |journal| && journal[i].WithdrawEvent? ==>
        h[i] == "Withdraw of " + ToString(journal[i].amount)
      ensures forall i :: 0 <= i < |journal| && journal[i].TransferEvent? ==> h[i] == ""
    {
      History(journal)
    }
  }
}
