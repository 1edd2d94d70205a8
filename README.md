# Event-sourced account grain, modelled in Dafny

This project models the account grain of an event-sourced bank account
service built on Orleans. Each account keeps two pieces of state: a running
balance and an append-only journal of events. There are three kinds of
event: a deposit, a withdrawal, and a transfer to another account.

The commands work as follows:

- `Deposit` rejects a non-positive amount.
- `Withdraw` rejects a non-positive amount and an amount larger than the
  balance.
- `Transfer` rejects an empty destination id and a non-positive amount.
  Otherwise it withdraws on its own account, deposits on the destination
  grain, and records a transfer event on its own journal.

Every accepted command goes through `ApplyEvent`. It moves the balance by the
event's kind and appends the event. `GetBalance` reads the balance.
`GetTransactionHistory` projects the journal to one text line per event.

Files:

- `decimals.dfy` (module `Decimals`) models the part of C#'s `decimal` that
  the grain uses. A value is an integer coefficient with a power-of-ten
  scale. Addition and subtraction work at the larger scale and comparison
  is by value. The default text form comes with a parser, and the two are
  proved to round-trip. `Value` gives the mathematical value of a decimal,
  as a real number, for use in contracts.
- `account_events.dfy` (module `AccountEvents`) models the event records of
  `Models/AccountEvent.cs` as a datatype. It also holds the balance
  projection: `Apply` is one step and `Fold` is the left fold from 0. It
  defines the journals that the commands' guards can produce, with lemmas
  saying these never project a negative balance.
- `account_grain.dfy` (module `AccountGrains`) models the grain as a class.
  The fields `balance` and `journal` are the two persistent states. The
  methods are the grain's commands, and the functions are its two queries.
  Exceptions become a `Result` value that carries the exception type the
  source throws, with its message or, for `ArgumentNullException`, its
  parameter name. `Void` (0) is what every command returns on
  success.

`Consistent()` is the class invariant. It says the balance equals the fold
of the journal, every event passed its command's guards, and every transfer
event directly follows the withdrawal of the same amount. The commands do
not require it, because the source runs them on whatever state storage
holds. Instead each command promises its exact new state, and promises to
keep `Consistent()` if it held before.

Events carry no version numbers and commands return 0, not a version. A
transfer has no id, so a retried transfer is applied again. A transfer
records a single `TransferEvent` on the source account only. When the
deposit on the destination fails, the withdrawal already applied on the
source is not undone.

## Model

| member | source | states |
|---|---|---|
| `Decimals.Add` | src/Account.EventSourcing/Account.EventSourcing/Grains/AccountGrain.cs:93 | the sum's value is the sum of the operands' values; its scale is the larger operand scale |
| `Decimals.Sub` | src/Account.EventSourcing/Account.EventSourcing/Grains/AccountGrain.cs:94 | the difference's value is the difference of the values; its scale is the larger operand scale |
| `Decimals.Less` | src/Account.EventSourcing/Account.EventSourcing/Grains/AccountGrain.cs:45 | true exactly when the first value is below the second, whatever the two scales |
| `Decimals.LessOrEqual` | src/Account.EventSourcing/Account.EventSourcing/Grains/AccountGrain.cs:31 | true exactly when the first value is at most the second, whatever the two scales |
| `Decimals.ToString` | src/Account.EventSourcing/Account.EventSourcing/Grains/AccountGrain.cs:81-82 | the text of an amount starts with "-" exactly when it is negative, has a digit right after the sign (or first, when there is no sign), and ends in exactly scale digits with the point just before them when the scale is positive, so trailing zeros stay; its partners `ParseToString` and `ToStringInjective` show the text loses nothing |
| `Decimals.ParseToString` | src/Account.EventSourcing/Account.EventSourcing/Grains/AccountGrain.cs:81-82 | the text an amount prints as in a history line reads back to the same coefficient and scale |
| `Decimals.ToStringInjective` | src/Account.EventSourcing/Account.EventSourcing/Grains/AccountGrain.cs:81-82 | two amounts print the same only when they are the same decimal |
| `AccountEvents.Accepts` | src/Account.EventSourcing/Account.EventSourcing/Grains/AccountGrain.cs:29-60 | an event passes its command's guards exactly when its amount is worth more than 0, for a withdrawal no more than the balance, and for a transfer its destination id is not empty; `AdmissibleFromAppend` and `AdmissibleNonNegative` build the journal invariant on it |
| `AccountEvents.Apply` | src/Account.EventSourcing/Account.EventSourcing/Grains/AccountGrain.cs:91-96 | the new balance's value is the old one plus the amount for a deposit, minus it for a withdrawal; a transfer leaves the balance exactly as it was |
| `AccountEvents.FoldValue` | src/Account.EventSourcing/Account.EventSourcing/Grains/AccountGrain.cs:91-98 | the balance a journal projects from 0 is worth the deposits minus the withdrawals; transfers count zero |
| `AccountEvents.FoldAppend` | src/Account.EventSourcing/Account.EventSourcing/Grains/AccountGrain.cs:91-98 | appending one event to the journal moves its projection by exactly one balance step for that event |
| `AccountEvents.AdmissibleFromAppend` | src/Account.EventSourcing/Account.EventSourcing/Grains/AccountGrain.cs:42-46 | a journal extended by one event passed the guards exactly when the old journal did and the new event passes them against the balance projected so far |
| `AccountEvents.AdmissibleNonNegative` | src/Account.EventSourcing/Account.EventSourcing/Grains/AccountGrain.cs:45-46 | a journal whose every withdrawal passed the funds check never projects a negative balance |
| `AccountEvents.RecordAccepted` | src/Account.EventSourcing/Account.EventSourcing/Grains/AccountGrain.cs:29-52 | a deposit or withdrawal that passed its command's guards keeps a journal valid |
| `AccountEvents.RecordTransfer` | src/Account.EventSourcing/Account.EventSourcing/Grains/AccountGrain.cs:56-68 | a transfer event with a non-empty destination id, recorded right after the withdrawal of the same positive amount, keeps a journal valid |
| `AccountGrains.Summary` | src/Account.EventSourcing/Account.EventSourcing/Grains/AccountGrain.cs:80-84 | a history line is empty exactly when its event is a transfer |
| `AccountGrains.SummaryInjective` | src/Account.EventSourcing/Account.EventSourcing/Grains/AccountGrain.cs:81-82 | a deposit or withdrawal line determines its event, kind and amount both |
| `AccountGrains.HistoryDeterminesBalance` | src/Account.EventSourcing/Account.EventSourcing/Grains/AccountGrain.cs:78-86 | two journals with the same transaction history project the same balance, because the only lines it blanks out are transfers, which do not move the balance |
| `AccountGrains.HistoryAppend` | src/Account.EventSourcing/Account.EventSourcing/Grains/AccountGrain.cs:78-86 | appending an event adds one line at the end of the history and leaves the earlier lines as they were |
| `AccountGrains.AccountGrain.constructor` | src/Account.EventSourcing/Account.EventSourcing/Grains/AccountGrain.cs:18-26 | an activated grain holds exactly the balance and journal its two stores supplied; it starts consistent when the stores hold a valid journal and its fold, in particular when both are empty (balance 0, no events) |
| `AccountGrains.AccountGrain.ApplyEvent` | src/Account.EventSourcing/Account.EventSourcing/Grains/AccountGrain.cs:88-106 | the balance takes one step for the event and the event is appended to the journal, which grows by one with earlier entries kept; balance == fold of the journal is preserved |
| `AccountGrains.AccountGrain.Deposit` | src/Account.EventSourcing/Account.EventSourcing/Grains/AccountGrain.cs:29-38 | a non-positive amount throws "Deposit amount must be positive." and changes nothing; otherwise returns 0, the balance grows by exactly the amount and the journal gains exactly DepositEvent(amount) at its end; a non-negative balance stays non-negative; consistency is preserved |
| `AccountGrains.AccountGrain.Withdraw` | src/Account.EventSourcing/Account.EventSourcing/Grains/AccountGrain.cs:40-52 | a non-positive amount, then an amount above the balance, throw their messages and change nothing; otherwise returns 0, the balance drops by exactly the amount and the journal gains exactly WithdrawEvent(amount); the balance never goes below 0 from a non-negative start; consistency is preserved |
| `AccountGrains.AccountGrain.Transfer` | src/Account.EventSourcing/Account.EventSourcing/Grains/AccountGrain.cs:54-71 | an empty destination id, then a non-positive amount, then insufficient funds throw and leave both accounts unchanged; otherwise the source balance drops by the amount, its journal gains WithdrawEvent then TransferEvent(toAccountId, amount), the destination's balance grows by the amount with DepositEvent appended; the sum of the two balances is unchanged on every path; non-negativity and consistency of both accounts are preserved |
| `AccountGrains.AccountGrain.GetBalance` | src/Account.EventSourcing/Account.EventSourcing/Grains/AccountGrain.cs:73-76 | reads only; on a consistent account the balance is the fold of the journal and is not negative |
| `AccountGrains.AccountGrain.GetTransactionHistory` | src/Account.EventSourcing/Account.EventSourcing/Grains/AccountGrain.cs:78-86 | reads only; one line per journal event in journal order: "Deposit of x" for a deposit, "Withdraw of x" for a withdrawal (x the amount's text), "" for a transfer |

## Left out

- Persistence: the two `WriteStateAsync` calls (AccountGrain.cs:100-101) are no-ops here, because the storage backend is external. Neither a failure of either write nor a crash between the two writes is modelled. Such a crash could leave the stored balance and journal out of step.
- Logging (AccountGrain.cs:103) is left out. It has no effect on state.
- Orleans hosting: `GrainFactory.GetGrain` (AccountGrain.cs:64) becomes a destination grain passed to `Transfer`. Its key must equal `toAccountId` when that id is non-empty. Activation, single-threaded turns and `async` interleaving are not modelled; calls run one after another.
- AccountGrains.AccountGrain.Transfer: requires the destination to be a different object from the source grain, with a key other than the grain's own; a transfer to the grain's own id is excluded. In the code such a transfer calls back into the same non-reentrant activation (AccountGrain.cs:64-65) after the withdrawal at :62 is applied. That call cannot run inside the grain's own turn, and this sequential model cannot express it.
- AccountGrains.AccountGrain.Transfer: in this model the destination's `Deposit` can only fail for a non-positive amount, which `Transfer` has already rejected. So the path where the source withdrawal stays applied after a failed deposit cannot be reached here. In the code that deposit can also fail in two other ways. The first is a storage or messaging error. The second is an `OverflowException` at AccountGrain.cs:93, when the destination balance plus the amount goes past the range of `decimal`. Neither is modelled; see the storage line above and the "C# `decimal` limits" line below. In both cases the source's withdrawal (AccountGrain.cs:62, written at 100-101) stays applied, and the exception propagates out of `Transfer` at AccountGrain.cs:65 without compensation.
- Null strings: `string.IsNullOrEmpty(toAccountId)` is modelled as the empty test. Dafny strings cannot be null, and a null id takes the same branch.
- C# `decimal` limits: the coefficient is an unbounded integer and the scale an unbounded natural. The 96-bit coefficient, the maximum scale of 28, rounding on overflow of the scale and `OverflowException` are not modelled.
- Formatting culture: amounts print with '.' as the decimal separator. The source formats with the current culture, which may use another separator.
- `AccountState` (the type behind `_state.State`) is not part of this model. Its `Balance` is taken to be a `decimal` whose default value is 0.
- Program.cs (hosting, storage registration, HTTP endpoints) and IAccountGrain.cs (the interface signatures) are not part of this model. They hold no account logic.
