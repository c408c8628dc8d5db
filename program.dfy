/**
  One step of a simulated buyer: the status query's result is handed straight
  to GetSellableTickets, and a null answer from that ends the buyer's loop.
  The tasks, timing, logging and console of the program are not modelled.
 */
module Program {
  import opened Wrappers
  import opened Data
  import opened TicketService
  import opened TicketRepository

  /** What a buyer does next with a stock snapshot. */
  datatype Step =
    | Crash                                  // an exception escapes the buyer's loop
    | Stop                                   // nothing left to sell: the loop breaks
    | Buy(tickets: seq<TicketEventStatus>)   // pick one of these lots and try to buy it

  /**
    The step as the program is written: a null snapshot (a reader without rows)
    reaches the foreach of GetSellableTickets, which throws before the try
    block; otherwise a null sellable list stops the buyer.
   */
  function NextStepAsWritten(fetched: Option<seq<TicketEventStatus>>): (step: Step)
    ensures step == Crash <==> fetched.None?
    ensures step == Stop <==> fetched.Some? && Sellable(fetched.value) == []
    ensures step.Buy? ==> step.tickets != [] && step.tickets == Sellable(fetched.value)
  {
    match fetched
    case None => Crash
    case Some(all) => if Sellable(all) == [] then Stop else Buy(Sellable(all))
  }

  /** An event whose status query returns no rows makes every buyer throw instead of stopping. */
  lemma EmptyReaderCrashesBuyer()
    ensures Decoded([]) == None
    ensures NextStepAsWritten(Decoded([])) == Crash
  {
  }

  /**
    The evidently intended step: a snapshot without rows holds nothing to sell,
    so it stops the buyer like any snapshot without a sellable lot.
   */
  function NextStep(fetched: Option<seq<TicketEventStatus>>): (step: Step)
    ensures step != Crash
  {
    NextStepAsWritten(Some(fetched.GetOr([])))
  }

  /**
    The buyer stops exactly when the snapshot has no sellable lot, and
    otherwise goes on with a non-empty list of sellable lots that a second
    filter leaves unchanged, so every index into it is a valid pick.
   */
  lemma NextStepStopsIffNothingSellable(fetched: Option<seq<TicketEventStatus>>)
    ensures var all := fetched.GetOr([]);
      NextStep(fetched) == Stop <==> forall i :: 0 <= i < |all| ==> !IsSellable(all[i])
    ensures NextStep(fetched).Buy? ==>
      NextStep(fetched).tickets != [] &&
      Sellable(NextStep(fetched).tickets) == NextStep(fetched).tickets
  {
    var all := fetched.GetOr([]);
    SellableEmptyIff(all);
    SellableIdempotent(all);
  }

  /** The correction changes nothing for a query that returned rows. */
  lemma NextStepAgreesOnRows(reader: seq<Row>)
    requires reader != []
    ensures NextStep(Decoded(reader)) == NextStepAsWritten(Decoded(reader))
  {
  }
}
