/** The events an account's journal records, and the balance they project:
    a left fold over the journal, starting at 0, in which a deposit adds its
    amount, a withdrawal subtracts it and a transfer leaves the balance as
    it is. */
module AccountEvents {
  import opened Decimals

  datatype AccountEvent =
    | DepositEvent(amount: Decimal)
    | WithdrawEvent(amount: Decimal)
    | TransferEvent(toAccountId: string, amount: Decimal)

  /** The signed change an event makes to the value of a balance. */
  ghost function Flow(evt: AccountEvent): real
  {
    match evt
    case DepositEvent(a) => Value(a)
    case WithdrawEvent(a) => -Value(a)
    case TransferEvent(_, _) => 0.0
  }

  /** The balance after one event: the switch at the head of ApplyEvent. */
  function Apply(balance: Decimal, evt: AccountEvent): (r: Decimal)
    ensures Value(r) == Value(balance) + Flow(evt)
    ensures evt.TransferEvent? ==> r == balance
  {
    match evt
    case DepositEvent(a) => Add(balance, a)
    case WithdrawEvent(a) => Sub(balance, a)
    case TransferEvent(_, _) => balance
  }

  /** The events folded onto acc, oldest first. */
  function FoldFrom(acc: Decimal, events: seq<AccountEvent>): Decimal
    decreases |events|
  {
    if events == [] then acc else FoldFrom(Apply(acc, events[0]), events[1..])
  }

  /** The balance a journal projects. */
  function Fold(events: seq<AccountEvent>): Decimal
  {
    FoldFrom(Zero, events)
  }

  /** Reference definition: the sum of the events' signed amounts. */
  ghost function NetFlow(events: seq<AccountEvent>): real
    decreases |events|
  {
    if events == [] then 0.0 else Flow(events[0]) + NetFlow(events[1..])
  }

  lemma {:induction false} FoldFromValue(acc: Decimal, events: seq<AccountEvent>)
    ensures Value(FoldFrom(acc, events)) == Value(acc) + NetFlow(events)
    decreases |events|
  {
    if events != [] {
      FoldFromValue(Apply(acc, events[0]), events[1..]);
    }
  }

  /** The projected balance is worth exactly the deposits minus the withdrawals. */
  lemma FoldValue(events: seq<AccountEvent>)
    ensures Value(Fold(events)) == NetFlow(events)
  {
    FoldFromValue(Zero, events);
  }

  lemma {:induction false} FoldFromAppend(acc: Decimal, events: seq<AccountEvent>, evt: AccountEvent)
    ensures FoldFrom(acc, events + [evt]) == Apply(FoldFrom(acc, events), evt)
    decreases |events|
  {
    if events != [] {
      assert (events + [evt])[1..] == events[1..] + [evt];
      FoldFromAppend(Apply(acc, events[0]), events[1..], evt);
    }
  }

  /** Appending one event moves the projection by exactly one step. */
  lemma FoldAppend(events: seq<AccountEvent>, evt: AccountEvent)
    ensures Fold(events + [evt]) == Apply(Fold(events), evt)
  {
    FoldFromAppend(Zero, events, evt);
  }

  // ---------------------------------------------------------------------
  // Journals the commands can produce.
  // ---------------------------------------------------------------------

  /** The guards a command checks before its event is applied to balance:
      a positive amount, for a withdrawal a balance that covers it, and for
      a transfer a destination id that is not empty. */
  predicate Accepts(balance: Decimal, evt: AccountEvent): (r: bool)
    ensures r <==>
      Value(evt.amount) > 0.0
      && (evt.WithdrawEvent? ==> Value(evt.amount) <= Value(balance))
      && (evt.TransferEvent? ==> evt.toAccountId != [])
  {
    match evt
    case DepositEvent(a) => !LessOrEqual(a, Zero)
    case WithdrawEvent(a) => !LessOrEqual(a, Zero) && !Less(balance, a)
    case TransferEvent(id, a) => id != [] && !LessOrEqual(a, Zero)
  }

  /** Every event passed its guards against the balance projected before it. */
  predicate AdmissibleFrom(acc: Decimal, events: seq<AccountEvent>)
    decreases |events|
  {
    events == [] || (Accepts(acc, events[0]) && AdmissibleFrom(Apply(acc, events[0]), events[1..]))
  }

  predicate Admissible(events: seq<AccountEvent>)
  {
    AdmissibleFrom(Zero, events)
  }

  /** A transfer is recorded right after the withdrawal of the same amount. */
  predicate TransfersFollowWithdrawals(events: seq<AccountEvent>)
  {
    forall i :: 0 <= i < |events| && events[i].TransferEvent? ==>
      0 < i && events[i - 1] == WithdrawEvent(events[i].amount)
  }

  predicate ValidJournal(events: seq<AccountEvent>)
  {
    Admissible(events) && TransfersFollowWithdrawals(events)
  }

  lemma {:induction false} AdmissibleFromAppend(acc: Decimal, events: seq<AccountEvent>, evt: AccountEvent)
    ensures AdmissibleFrom(acc, events + [evt])
        <==> AdmissibleFrom(acc, events) && Accepts(FoldFrom(acc, events), evt)
    decreases |events|
  {
    if events == [] {
      assert events + [evt] == [evt];
    } else {
      assert (events + [evt])[1..] == events[1..] + [evt];
      AdmissibleFromAppend(Apply(acc, events[0]), events[1..], evt);
    }
  }

  lemma {:induction false} AdmissibleFromNonNegative(acc: Decimal, events: seq<AccountEvent>)
    requires Value(acc) >= 0.0 && AdmissibleFrom(acc, events)
    ensures Value(FoldFrom(acc, events)) >= 0.0
    decreases |events|
  {
    if events != [] {
      AdmissibleFromNonNegative(Apply(acc, events[0]), events[1..]);
    }
  }

  /** No journal the guards let through projects a negative balance. */
  lemma AdmissibleNonNegative(events: seq<AccountEvent>)
    ensures Admissible(events) ==> Value(Fold(events)) >= 0.0
  {
    if Admissible(events) {
      AdmissibleFromNonNegative(Zero, events);
    }
  }

  /** A deposit or withdrawal that passed its guards keeps a journal valid. */
  lemma RecordAccepted(events: seq<AccountEvent>, evt: AccountEvent)
    requires ValidJournal(events) && !evt.TransferEvent? && Accepts(Fold(events), evt)
    ensures ValidJournal(events + [evt])
  {
    AdmissibleFromAppend(Zero, events, evt);
    var e := events + [evt];
    forall i | 0 <= i < |e| && e[i].TransferEvent?
      ensures 0 < i && e[i - 1] == WithdrawEvent(e[i].amount)
    {
      assert e[i] == events[i];
    }
  }

  /** A transfer to a named account recorded right after the withdrawal of
      a positive amount keeps a journal valid. */
  lemma RecordTransfer(events: seq<AccountEvent>, toAccountId: string, amount: Decimal)
    requires ValidJournal(events) && toAccountId != [] && !LessOrEqual(amount, Zero)
    requires |events| > 0 && events[|events| - 1] == WithdrawEvent(amount)
    ensures ValidJournal(events + [TransferEvent(toAccountId, amount)])
  {
    var evt := TransferEvent(toAccountId, amount);
    AdmissibleFromAppend(Zero, events, evt);
    var e := events + [evt];
    forall i | 0 <= i < |e| && e[i].TransferEvent?
      ensures 0 < i && e[i - 1] == WithdrawEvent(e[i].amount)
    {
      if i < |events| {
        assert e[i] == events[i];
      }
    }
  }
}
