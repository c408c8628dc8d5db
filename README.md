# eTicket panic-buying simulator: ticket availability and selection core

The simulator starts thousands of buyer tasks against a SQL Server ticket
database. Each buyer reads the stock of event 1, keeps the lots that still have
tickets, picks one at random with a random quantity, calls the
`[Tickets].[BuyTicketAuto]` stored procedure, logs the attempt, and loops
until nothing is left to sell.

This project models the sequential rules under that loop:

- **TicketEventStatus** (module `Data`): a lot's derived remaining count.
  `TicketLeft` is `TicketTotal - TicketSell`, evaluated as unchecked C# `int`
  arithmetic. It is recomputed on every read and never clamped.
- **TicketService**: `HasTicketForSell` scans for a lot with tickets left.
  `GetSellableTickets` collects the sellable lots in order, or returns null
  (`None`) when there are none. Both are loops, proved against the filter
  function `Sellable` (through `SellableTickets`, the filter or null). `Sellable` is characterised by lemmas about its
  members, their order and its emptiness, and is shown to be idempotent.
- **RandomService**: `GetRandomTicket` builds the purchase request from a
  sellable lot. The two `System.Random` draws and `Guid.NewGuid()` are
  passed in as parameters.
- **TicketRepository**: `MapToTicketEventStatus` decodes reader rows. Each row
  is a tuple of six nullable columns. A reader without rows decodes to null.
  `BuyTicketAuto` fills the stored procedure's parameter collection step by
  step, runs the procedure and decodes the `@IsSuccess` output; DBNull counts
  as failure. The reader and the procedure are abstract inputs: the procedure
  is a function from the parameters it receives to the flag it writes.
- **Program**: the hand-off at Program.cs lines 81-85 from the status query to
  `GetSellableTickets`, including what happens when the query returns no rows
  (see Findings).

C# `int` is the subset type `ClrTypes.Int32`. Subtraction wraps explicitly
through `ClrTypes.Wrap32`. C# null is `Wrappers.Option.None`.

## Model

| member | source | states |
|---|---|---|
| ClrTypes.Wrap32 | app/eTicketLoader/eTicketLoaderApp/Data/TicketEventStatus.cs:20 | an unchecked int result is the 32-bit value congruent to the exact difference modulo 2^32, and equals it when it fits |
| Data.TicketEventStatus.TicketLeft | app/eTicketLoader/eTicketLoaderApp/Data/TicketEventStatus.cs:16-22 | the remaining count is TicketTotal - TicketSell whenever that fits in an int, and is always congruent to it modulo 2^32 |
| Data.DefaultStatus | app/eTicketLoader/eTicketLoaderApp/Data/TicketEventStatus.cs:9-14 | `new TicketEventStatus()` leaves every field at its default: 0 for the int fields, null for Gate, Section and ListPrice |
| Data.DefaultHasNoneLeft | app/eTicketLoader/eTicketLoaderApp/Data/TicketEventStatus.cs:13-20 | a default-constructed status (both counters 0) has TicketLeft 0 |
| Data.NonNegativeCountersDoNotOverflow | app/eTicketLoader/eTicketLoaderApp/Data/TicketEventStatus.cs:13-20 | non-negative counters never make the subtraction overflow |
| Data.LeftPositiveIffUndersold | app/eTicketLoader/eTicketLoaderApp/Data/TicketEventStatus.cs:20 | without overflow, TicketLeft > 0 holds exactly when TicketSell < TicketTotal |
| Data.OversoldIsNegative | app/eTicketLoader/eTicketLoaderApp/Data/TicketEventStatus.cs:20 | TicketLeft is not clamped: it is negative when more tickets are sold than exist |
| Data.WrappedDifferenceLooksSellable | app/eTicketLoader/eTicketLoaderApp/Data/TicketEventStatus.cs:20 | with TicketTotal = int.MinValue and TicketSell = 1, the wrapped TicketLeft is int.MaxValue although the lot is oversold |
| Data.TicketLeftIgnoresDescription | app/eTicketLoader/eTicketLoaderApp/Data/TicketEventStatus.cs:9-22 | gate number, gate, section and list price play no part in TicketLeft |
| Data.TicketLeftFollowsCounters | app/eTicketLoader/eTicketLoaderApp/Data/TicketEventStatus.cs:13-22 | after either counter is set, TicketLeft matches the new counters: nothing is cached |
| TicketService.Sellable | app/eTicketLoader/eTicketLoaderApp/Service/RandomService.cs:20 | the `Where(x => x.TicketLeft > 0)` filter, shared with the loop of TicketService.cs:26-30; its result is never longer than its input |
| TicketService.SellableIndicesExact | app/eTicketLoader/eTicketLoaderApp/Service/TicketService.cs:26-30 | the positions the filter keeps are in bounds and strictly increasing, and a position is kept if and only if its lot has TicketLeft > 0 |
| TicketService.SellableAtIndices | app/eTicketLoader/eTicketLoaderApp/Service/TicketService.cs:24-35 | the k-th kept lot is the input lot at the k-th kept position, so the result is the sellable lots in their original order and is no longer than the input |
| TicketService.SellableAllPositive | app/eTicketLoader/eTicketLoaderApp/Service/TicketService.cs:26-30 | every lot the filter keeps has TicketLeft > 0 |
| TicketService.SellableMembership | app/eTicketLoader/eTicketLoaderApp/Service/TicketService.cs:26-30 | a lot is in the result if and only if it is in the input and has TicketLeft > 0 |
| TicketService.SellableEmptyIff | app/eTicketLoader/eTicketLoaderApp/Service/TicketService.cs:24-33 | the filter is empty exactly when no input lot has TicketLeft > 0 |
| TicketService.SellableIdempotent | app/eTicketLoader/eTicketLoaderApp/Service/RandomService.cs:20 | filtering already-filtered lots again changes nothing |
| TicketService.SellableTickets | app/eTicketLoader/eTicketLoaderApp/Service/TicketService.cs:22-36 | the answer of GetSellableTickets: null exactly when the filter keeps nothing, otherwise the filtered lots, never empty and no longer than the input |
| TicketService.HasTicketForSell | app/eTicketLoader/eTicketLoaderApp/Service/TicketService.cs:11-20 | true if and only if some lot has TicketLeft > 0 (hence false on an empty input); false exactly when GetSellableTickets returns null |
| TicketService.GetSellableTickets | app/eTicketLoader/eTicketLoaderApp/Service/TicketService.cs:22-36 | returns the sellable lots in input order, or null when there are none, so a present result is never empty and no longer than the input |
| RandomService.GetRandomTicket | app/eTicketLoader/eTicketLoaderApp/Service/RandomService.cs:18-30 | given an index below the number of sellable lots (none exists when no lot is sellable, where the source indexes an empty array and throws), the request's gate is that of the index-th sellable lot (so of an input lot with tickets left), the count is the drawn count, in 1..4, the event number is 1 and the buyer GUID is set to the fresh value |
| RandomService.EverySellableLotReachable | app/eTicketLoader/eTicketLoaderApp/Service/RandomService.cs:20-25 | every lot with tickets left is chosen by some index draw |
| TicketRepository.DecodeRow | app/eTicketLoader/eTicketLoaderApp/Repository/TicketRepository.cs:106-121 | columns 0-5 go to TicketGateNo, Gate, Section, ListPrice, TicketSell and TicketTotal when not null; a null column leaves the default (0 or null) |
| TicketRepository.NullRowIsDefault | app/eTicketLoader/eTicketLoaderApp/Repository/TicketRepository.cs:106-119 | an all-null row decodes to a default status, which has TicketLeft 0 |
| TicketRepository.NullTotalNotSellable | app/eTicketLoader/eTicketLoaderApp/Repository/TicketRepository.cs:118-119 | a row with a null TicketTotal and a null or non-negative TicketSell decodes to a lot with nothing to sell |
| TicketRepository.DecodeEncodeRow | app/eTicketLoader/eTicketLoaderApp/Repository/TicketRepository.cs:106-121 | decoding recovers every status from the row that carries its fields |
| TicketRepository.EncodeDecodeRow | app/eTicketLoader/eTicketLoaderApp/Repository/TicketRepository.cs:106-121 | a row with non-null integer columns is determined by the status it decodes to |
| TicketRepository.Decoded | app/eTicketLoader/eTicketLoaderApp/Repository/TicketRepository.cs:94-125 | a reader without rows decodes to null; otherwise each row yields exactly one status, in row order |
| TicketRepository.MapToTicketEventStatus | app/eTicketLoader/eTicketLoaderApp/Repository/TicketRepository.cs:94-125 | the row loop, which sets fields conditionally and appends, computes Decoded |
| TicketRepository.BuyRequest | app/eTicketLoader/eTicketLoaderApp/Repository/TicketRepository.cs:67-80 | the parameter list holds @TicketEventNo, @GateNo, @memberGUID, @TicketCount and @IsSuccess in the order they are added, with types Int, Int, UniqueIdentifier, TinyInt and Bit; only @IsSuccess is an output, and it starts as DBNull |
| TicketRepository.BuyRequestCarriesBuyer | app/eTicketLoader/eTicketLoaderApp/Repository/TicketRepository.cs:67-80 | the buyer's event number, gate, GUID and count are read back unchanged from the parameters; @IsSuccess is the only output and starts as DBNull |
| TicketRepository.IsSuccessOf | app/eTicketLoader/eTicketLoaderApp/Repository/TicketRepository.cs:86-89 | a DBNull output flag means false; otherwise the result is the flag's boolean value |
| TicketRepository.BuyTicketAuto | app/eTicketLoader/eTicketLoaderApp/Repository/TicketRepository.cs:53-91 | the parameters built step by step are the buyer's request, and the result is true exactly when the procedure leaves @IsSuccess set to true |
| Program.NextStepAsWritten | app/eTicketLoader/eTicketLoaderApp/Program.cs:81-85 | as written, the step throws exactly when the status query returned null, stops exactly when a present snapshot has no sellable lot, and otherwise goes on with the non-empty list of the sellable lots |
| Program.EmptyReaderCrashesBuyer | app/eTicketLoader/eTicketLoaderApp/Program.cs:81-82 | a status query without rows yields null, and passing it on makes the buyer throw instead of stopping |
| Program.NextStep | app/eTicketLoader/eTicketLoaderApp/Program.cs:81-85 | the corrected step never throws |
| Program.NextStepStopsIffNothingSellable | app/eTicketLoader/eTicketLoaderApp/Program.cs:81-85 | the corrected buyer stops exactly when the snapshot has no lot with tickets left; otherwise it continues with a non-empty list that a second filter leaves unchanged |
| Program.NextStepAgreesOnRows | app/eTicketLoader/eTicketLoaderApp/Program.cs:81-85 | the correction changes nothing when the query returns rows |

## Left out

- Program.cs task orchestration is not modelled: the 10,000 tasks, the status-polling join loop with its sleeps, the Stopwatch timing, the try/catch around the purchase, the log record and the console prompt (Program.cs:20-64, 66-80 and 86-111; lines 81-85 are modelled by the Program module). Their point is concurrency and wall-clock timing.
- Program.cs:99 assigns `ListPrice` on a `Log`, which declares no such member. It is not modelled.
- The source has no start gate or latch, so there is nothing to model for one.
- SqlClient plumbing is abstract: connections, `SqlCommand` set-up, `ExecuteReader` and `ExecuteNonQuery`. Reader rows are a sequence of tuples; the stored procedure is a function parameter. `GetTicketEventStatus` (TicketRepository.cs:20-51) only runs the query and calls `MapToTicketEventStatus`, so only the mapping is modelled.
- The `[Tickets].[BuyTicketAuto]` procedure's inventory logic is not part of this model. Nothing is assumed about when it succeeds.
- `TicketService.BuyTicketAuto`, `TicketService.GetTicketEventStatus`, `TicketContextProvider`, `LogService` and `LogRepository` are not modelled. They only delegate to the database or persist logs.
- RandomService.GetRandomTicket: the index, quantity and GUID are parameters. The model does not capture the `_random` generator's state advancing between the two `Next` calls, uniform choice, or GUID uniqueness.
- Statuses are values, not objects. C# passes the same objects through the filter by reference; the model cannot express aliasing. "The input is not modified" holds by construction.
- `decimal ListPrice` is an opaque value (`ClrTypes.Decimal`); no arithmetic is done on it.
- Parameter values are not converted at execution time: `@TicketCount` is declared `TinyInt`, and a count outside 0..255 would make SqlClient throw. Counts from `GetRandomTicket` are 1..4.
- TicketRepository.IsSuccessOf: the output flag is an `Option<bool>`, where None is DBNull. `Convert.ToBoolean` on a non-bit value is not modelled, because the parameter is declared `Bit`.
- Stopping on an empty query: the buyer's `if (_tickets == null) break;` (Program.cs:84-85) shows the code means to stop a buyer when nothing is sellable. A query without rows throws before reaching that test (see Findings). The as-written member keeps the throw; the corrected `Program.NextStep` treats no rows as nothing to sell.

## Findings

| source | as written | input that shows it | evidently intended | confidence | as-written member | corrected member |
|---|---|---|---|---|---|---|
| app/eTicketLoader/eTicketLoaderApp/Program.cs:81-85 | the status query's null result (no rows, TicketRepository.cs:96-97) is passed to `GetSellableTickets`, whose `foreach` (TicketService.cs:26) throws before the try block. The buyer task ends Faulted instead of breaking out of its loop. The process does not crash: the join loop (Program.cs:43-44) waits only for Running and WaitingToRun tasks, so a faulted buyer still counts as finished and the pool completes | an event whose status query returns no rows | a snapshot without rows holds nothing to sell, so the buyer breaks out of its loop, as the `if (_tickets == null) break;` at Program.cs:84-85 does when `GetSellableTickets` returns null | medium, not executed | Program.EmptyReaderCrashesBuyer | Program.NextStepStopsIffNothingSellable |
