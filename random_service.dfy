/**
  The random purchase pick: one sellable lot chosen by index and a quantity
  from 1 to 4, stamped with a fresh buyer GUID and event number 1.
  The two draws of System.Random and Guid.NewGuid() are parameters here.
 */
module RandomService {
  import opened Wrappers
  import opened ClrTypes
  import opened Data
  import opened TicketService

  /** The event every simulated buyer targets; the pick hard-codes it. */
  const EventNo: Int32 := 1

  /** `Random.Next(1, 5)`: the upper bound is exclusive. */
  const MinTicketCount: int := 1
  const MaxTicketCount: int := 4

  /**
    Builds the purchase request. `index` is the draw `Random.Next(0, n)` over
    the n sellable lots, `count` the draw `Random.Next(1, 5)` and `guid` the
    value of `Guid.NewGuid()`. With no sellable lot the source indexes an empty
    array and throws, so a sellable lot is required (index < n implies n > 0).
   */
  function GetRandomTicket(status: seq<TicketEventStatus>, index: nat, count: int, guid: Guid): (b: TicketBuyer)
    requires index < |Sellable(status)|
    requires MinTicketCount <= count <= MaxTicketCount
    ensures exists i :: 0 <= i < |status| && IsSellable(status[i]) && status[i].ticketGateNo == b.gateNo
    ensures b.gateNo == Sellable(status)[index].ticketGateNo
    ensures b.ticketCount == count && MinTicketCount <= b.ticketCount <= MaxTicketCount
    ensures b.ticketEventNo == EventNo
    ensures b.memberGuid == Some(guid)
  {
    var items := Sellable(status);
    var chosen := items[index];
    SellableAllPositive(status);
    SellableMembership(status, chosen);
    TicketBuyer(EventNo, chosen.ticketGateNo, Some(guid), count)
  }

  /** Every sellable lot can be the one picked: some index draw leads to its gate. */
  lemma {:induction false} EverySellableLotReachable(status: seq<TicketEventStatus>, i: nat, count: int, guid: Guid)
    requires i < |status| && IsSellable(status[i])
    requires MinTicketCount <= count <= MaxTicketCount
    ensures exists index: nat ::
              index < |Sellable(status)| &&
              GetRandomTicket(status, index, count, guid).gateNo == status[i].ticketGateNo
  {
    SellableMembership(status, status[i]);
    var index :| 0 <= index < |Sellable(status)| && Sellable(status)[index] == status[i];
    assert GetRandomTicket(status, index, count, guid).gateNo == status[i].ticketGateNo;
  }
}
