/**
  The availability rules of the buyer loop: whether any lot can still be sold,
  and the lots that can, in their original order (null when there are none).
 */
module TicketService {
  import opened Wrappers
  import opened Data

  /** A lot is offered for sale when its derived remaining count is positive. */
  predicate IsSellable(s: TicketEventStatus) {
    s.TicketLeft() > 0
  }

  /** The sellable lots of `items`, in their original order. */
  function Sellable(items: seq<TicketEventStatus>): (r: seq<TicketEventStatus>)
    ensures |r| <= |items|
  {
    if items == [] then []
    else
      var last := items[|items| - 1];
      Sellable(items[..|items| - 1]) + (if IsSellable(last) then [last] else [])
  }

  /** The positions of the sellable lots of `items`, in increasing order. */
  function SellableIndices(items: seq<TicketEventStatus>): seq<nat> {
    if items == [] then []
    else
      var n := |items| - 1;
      SellableIndices(items[..n]) + (if IsSellable(items[n]) then [n] else [])
  }

  /**
    The sellable positions of `items` are in bounds, strictly increasing, and
    a position is among them if and only if the lot there is sellable.
   */
  lemma {:induction false} SellableIndicesExact(items: seq<TicketEventStatus>)
    ensures forall k :: 0 <= k < |SellableIndices(items)| ==> SellableIndices(items)[k] < |items|
    ensures forall k, l :: 0 <= k < l < |SellableIndices(items)| ==>
      SellableIndices(items)[k] < SellableIndices(items)[l]
    ensures forall i :: 0 <= i < |items| ==> (i in SellableIndices(items) <==> IsSellable(items[i]))
  {
    if items != [] {
      var n := |items| - 1;
      var front := items[..n];
      SellableIndicesExact(front);
      assert SellableIndices(items) == SellableIndices(front) + (if IsSellable(items[n]) then [n] else []);
      forall i | 0 <= i < |items|
        ensures i in SellableIndices(items) <==> IsSellable(items[i])
      {
        if i < n {
          assert front[i] == items[i];
        }
      }
    }
  }

  /**
    Sellable(items) is the input read at its sellable positions: the k-th kept
    lot is the lot at the k-th sellable position.
   */
  lemma {:induction false} SellableAtIndices(items: seq<TicketEventStatus>)
    ensures |Sellable(items)| == |SellableIndices(items)| <= |items|
    ensures forall k :: 0 <= k < |SellableIndices(items)| ==>
      SellableIndices(items)[k] < |items| && Sellable(items)[k] == items[SellableIndices(items)[k]]
  {
    if items != [] {
      var n := |items| - 1;
      var front := items[..n];
      SellableAtIndices(front);
      forall k | 0 <= k < |SellableIndices(front)|
        ensures SellableIndices(front)[k] < |items| && Sellable(front)[k] == items[SellableIndices(front)[k]]
      {
        assert front[SellableIndices(front)[k]] == items[SellableIndices(front)[k]];
      }
    }
  }

  /** Every lot the filter keeps is sellable. */
  lemma {:induction false} SellableAllPositive(items: seq<TicketEventStatus>)
    ensures forall s :: s in Sellable(items) ==> IsSellable(s)
  {
    if items != [] {
      SellableAllPositive(items[..|items| - 1]);
    }
  }

  /** A lot is kept if and only if it occurs in the input and is sellable. */
  lemma {:induction false} SellableMembership(items: seq<TicketEventStatus>, s: TicketEventStatus)
    ensures s in Sellable(items) <==> s in items && IsSellable(s)
  {
    if items != [] {
      var n := |items| - 1;
      SellableMembership(items[..n], s);
      assert items == items[..n] + [items[n]];
    }
  }

  /** The filter comes out empty exactly when no lot of the input is sellable. */
  lemma {:induction false} SellableEmptyIff(items: seq<TicketEventStatus>)
    ensures Sellable(items) == [] <==> forall i :: 0 <= i < |items| ==> !IsSellable(items[i])
  {
    if items != [] {
      var n := |items| - 1;
      SellableEmptyIff(items[..n]);
      assert forall i :: 0 <= i < n ==> items[..n][i] == items[i];
    }
  }

  /**
    Filtering twice is filtering once: the lots GetSellableTickets hands on
    are all kept when GetRandomTicket filters them again.
   */
  lemma {:induction false} SellableIdempotent(items: seq<TicketEventStatus>)
    ensures Sellable(Sellable(items)) == Sellable(items)
  {
    if items != [] {
      var n := |items| - 1;
      var front := Sellable(items[..n]);
      SellableIdempotent(items[..n]);
      if IsSellable(items[n]) {
        var all := front + [items[n]];
        assert Sellable(items) == all;
        assert all[..|all| - 1] == front && all[|all| - 1] == items[n];
        assert Sellable(all) == Sellable(front) + [items[n]];
      } else {
        assert Sellable(items) == front;
      }
    }
  }

  /** What GetSellableTickets answers: the sellable lots, or None (C# null) when there are none. */
  function SellableTickets(items: seq<TicketEventStatus>): (r: Option<seq<TicketEventStatus>>)
    ensures r.None? <==> Sellable(items) == []
    ensures r.Some? ==> r.value == Sellable(items) && r.value != [] && |r.value| <= |items|
  {
    if Sellable(items) == [] then None else Some(Sellable(items))
  }

  /** Filtering the concatenation of a prefix and one more lot. */
  lemma SellableSnoc(items: seq<TicketEventStatus>, i: nat)
    requires i < |items|
    ensures Sellable(items[..i + 1])
         == Sellable(items[..i]) + (if IsSellable(items[i]) then [items[i]] else [])
  {
    assert items[..i + 1][..i] == items[..i];
  }

  /**
    Whether any lot has tickets left: a scan that stops at the first sellable
    lot. The answer is also whether the sellable filter is non-empty.
   */
  method HasTicketForSell(items: seq<TicketEventStatus>) returns (r: bool)
    ensures r <==> exists i :: 0 <= i < |items| && IsSellable(items[i])
    ensures r <==> SellableTickets(items).Some?
  {
    SellableEmptyIff(items);
    var i := 0;
    while i < |items|
      invariant 0 <= i <= |items|
      invariant forall j :: 0 <= j < i ==> !IsSellable(items[j])
    {
      if items[i].TicketLeft() > 0 {
        return true;
      }
      i := i + 1;
    }
    return false;
  }

  /**
    The sellable lots in their original order, gathered into a fresh list, or
    None (C# null) when there are none; a present result is never empty.
   */
  method GetSellableTickets(items: seq<TicketEventStatus>) returns (r: Option<seq<TicketEventStatus>>)
    ensures r == SellableTickets(items)
    ensures r.Some? ==> r.value != [] && |r.value| <= |items|
  {
    var results: seq<TicketEventStatus> := [];
    var i := 0;
    while i < |items|
      invariant 0 <= i <= |items|
      invariant results == Sellable(items[..i])
    {
      SellableSnoc(items, i);
      if items[i].TicketLeft() > 0 {
        results := results + [items[i]];
      }
      i := i + 1;
    }
    assert items[..i] == items;
    if |results| == 0 {
      r := None;
    } else {
      r := Some(results);
    }
  }
}
