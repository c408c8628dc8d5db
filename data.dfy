/**
  The records of the ticket core: the stock status of one gate/section lot and
  the purchase request a simulated buyer sends.
 */
module Data {
  import opened Wrappers
  import opened ClrTypes

  /**
    One lot of an event as the database reports it. Reference-typed and nullable
    columns (`Gate`, `Section`, `ListPrice`) are Options; None is C# null.
   */
  datatype TicketEventStatus = TicketEventStatus(
    ticketGateNo: Int32,
    gate: Option<string>,
    section: Option<string>,
    listPrice: Option<Decimal>,
    ticketSell: Int32,
    ticketTotal: Int32)
  {
    /**
      The remaining stock, recomputed from the two counters on every read.
      C# evaluates `TicketTotal - TicketSell` unchecked, so the difference wraps
      to 32 bits; it is not clamped at zero.
     */
    function TicketLeft(): (r: Int32)
      ensures InInt32Range(ticketTotal - ticketSell) ==> r == ticketTotal - ticketSell
      ensures (ticketTotal - ticketSell - r) % TwoTo32 == 0
    {
      Wrap32(ticketTotal - ticketSell)
    }

    /** The counters are such that the subtraction in TicketLeft does not overflow. */
    predicate NoOverflow() {
      InInt32Range(ticketTotal - ticketSell)
    }
  }

  /** A status as `new TicketEventStatus()` creates it: every field at its default. */
  function DefaultStatus(): (s: TicketEventStatus)
    ensures s.ticketGateNo == 0 && s.ticketSell == 0 && s.ticketTotal == 0
    ensures s.gate == None && s.section == None && s.listPrice == None
  {
    TicketEventStatus(0, None, None, None, 0, 0)
  }

  /** A default-constructed status has nothing left to sell. */
  lemma DefaultHasNoneLeft()
    ensures DefaultStatus().TicketLeft() == 0
  {
  }

  /** Counters a database reports (never negative) cannot make TicketLeft overflow. */
  lemma NonNegativeCountersDoNotOverflow(s: TicketEventStatus)
    requires s.ticketSell >= 0 && s.ticketTotal >= 0
    ensures s.NoOverflow()
  {
  }

  /** Without overflow, a lot has stock left exactly when fewer tickets are sold than exist. */
  lemma LeftPositiveIffUndersold(s: TicketEventStatus)
    requires s.NoOverflow()
    ensures s.TicketLeft() > 0 <==> s.ticketSell < s.ticketTotal
  {
  }

  /** TicketLeft is not clamped: an oversold lot reports a negative count. */
  lemma OversoldIsNegative(s: TicketEventStatus)
    requires s.NoOverflow() && s.ticketSell > s.ticketTotal
    ensures s.TicketLeft() < 0
  {
  }

  /**
    With negative counters the unchecked subtraction wraps: a lot that sold one
    ticket out of int.MinValue reports int.MaxValue tickets left.
   */
  lemma WrappedDifferenceLooksSellable()
    ensures var s := DefaultStatus().(ticketSell := 1, ticketTotal := MinInt32);
      s.ticketSell > s.ticketTotal && s.TicketLeft() == MaxInt32
  {
  }

  /** Only the two counters decide TicketLeft: gate number, names and price do not. */
  lemma TicketLeftIgnoresDescription(s: TicketEventStatus, gateNo: Int32,
                                     gate: Option<string>, section: Option<string>,
                                     price: Option<Decimal>)
    ensures s.(ticketGateNo := gateNo, gate := gate, section := section, listPrice := price).TicketLeft()
         == s.TicketLeft()
  {
  }

  /** Setting either counter changes TicketLeft to match the new counters: nothing is cached. */
  lemma TicketLeftFollowsCounters(s: TicketEventStatus, sell: Int32, total: Int32)
    ensures InInt32Range(total - sell) ==> s.(ticketSell := sell).(ticketTotal := total).TicketLeft() == total - sell
    ensures s.(ticketSell := sell).TicketLeft() == Wrap32(s.ticketTotal - sell)
    ensures s.(ticketTotal := total).TicketLeft() == Wrap32(total - s.ticketSell)
  {
  }

  /** A purchase request; `memberGuid` is a `Nullable<Guid>`. */
  datatype TicketBuyer = TicketBuyer(
    ticketEventNo: Int32,
    gateNo: Int32,
    memberGuid: Option<Guid>,
    ticketCount: Int32)
}
