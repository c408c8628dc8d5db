/**
  The database boundary of the ticket core: decoding the rows of the stock
  query into TicketEventStatus records, and encoding a purchase request as the
  parameters of the BuyTicketAuto stored procedure, then decoding its output
  flag. Connections, commands and the procedure itself stay abstract: the
  reader is its sequence of rows and the procedure a function from the
  parameters it receives to the value it writes into the output flag.
 */
module TicketRepository {
  import opened Wrappers
  import opened ClrTypes
  import opened Data

  // ---------------------------------------------------------------------------
  // Stock rows

  /**
    One row of the stock query: TicketGateNo, Gate, Section, ListPrice,
    TicketSell, TicketTotal, in column order; None is a DBNull column.
   */
  type Row = (Option<Int32>, Option<string>, Option<string>, Option<Decimal>, Option<Int32>, Option<Int32>)

  /**
    The status one row decodes to: a fresh default status whose fields are
    overwritten by the non-null columns.
   */
  function DecodeRow(row: Row): (s: TicketEventStatus)
    ensures s.ticketGateNo == if row.0.Some? then row.0.value else 0
    ensures s.gate == row.1 && s.section == row.2 && s.listPrice == row.3
    ensures s.ticketSell == if row.4.Some? then row.4.value else 0
    ensures s.ticketTotal == if row.5.Some? then row.5.value else 0
  {
    TicketEventStatus(row.0.GetOr(0), row.1, row.2, row.3, row.4.GetOr(0), row.5.GetOr(0))
  }

  /** The row a status is read from when every column is present (ints non-null). */
  function EncodeRow(s: TicketEventStatus): Row {
    (Some(s.ticketGateNo), s.gate, s.section, s.listPrice, Some(s.ticketSell), Some(s.ticketTotal))
  }

  /** A row of nulls decodes to a default status, which has nothing left to sell. */
  lemma NullRowIsDefault(row: Row)
    requires row == (None, None, None, None, None, None)
    ensures DecodeRow(row) == DefaultStatus()
    ensures DecodeRow(row).TicketLeft() == 0
  {
  }

  /** A null TicketTotal column yields a lot that is never offered for sale. */
  lemma NullTotalNotSellable(row: Row)
    requires row.5 == None && row.4.GetOr(0) >= 0
    ensures DecodeRow(row).TicketLeft() <= 0
  {
  }

  /** Decoding recovers every status from its row. */
  lemma DecodeEncodeRow(s: TicketEventStatus)
    ensures DecodeRow(EncodeRow(s)) == s
  {
  }

  /** A row whose integer columns are all present is determined by what it decodes to. */
  lemma EncodeDecodeRow(row: Row)
    requires row.0.Some? && row.4.Some? && row.5.Some?
    ensures EncodeRow(DecodeRow(row)) == row
  {
  }

  /**
    What a reader decodes to: None (C# null) when it has no rows, not an empty
    array; otherwise one status per row, in row order.
   */
  function Decoded(reader: seq<Row>): (r: Option<seq<TicketEventStatus>>)
    ensures r.None? <==> reader == []
    ensures r.Some? ==> |r.value| == |reader|
    ensures r.Some? ==> forall k :: 0 <= k < |reader| ==> r.value[k] == DecodeRow(reader[k])
  {
    if reader == [] then None else Some(seq(|reader|, k requires 0 <= k < |reader| => DecodeRow(reader[k])))
  }

  /**
    Maps the rows of a reader to statuses, building each one field by field
    from a default-constructed status and appending it to a list.
   */
  method MapToTicketEventStatus(reader: seq<Row>) returns (r: Option<seq<TicketEventStatus>>)
    ensures r == Decoded(reader)
  {
    if |reader| == 0 {
      return None;
    }
    var items: seq<TicketEventStatus> := [];
    var i := 0;
    while i < |reader|
      invariant 0 <= i <= |reader|
      invariant |items| == i
      invariant forall k :: 0 <= k < i ==> items[k] == DecodeRow(reader[k])
    {
      var row := reader[i];
      var item := DefaultStatus();
      if row.0.Some? { item := item.(ticketGateNo := row.0.value); }
      if row.1.Some? { item := item.(gate := row.1); }
      if row.2.Some? { item := item.(section := row.2); }
      if row.3.Some? { item := item.(listPrice := row.3); }
      if row.4.Some? { item := item.(ticketSell := row.4.value); }
      if row.5.Some? { item := item.(ticketTotal := row.5.value); }
      items := items + [item];
      i := i + 1;
    }
    assert items == Decoded(reader).value;
    return Some(items);
  }

  // ---------------------------------------------------------------------------
  // BuyTicketAuto parameters

  const TicketEventNoName: string := "@TicketEventNo"
  const GateNoName: string := "@GateNo"
  const MemberGuidName: string := "@memberGUID"
  const TicketCountName: string := "@TicketCount"
  const IsSuccessName: string := "@IsSuccess"

  /** The parameter list holds the five names in the order `Parameters.Add` adds them. */
  predicate NamesAt(ps: seq<SqlParameter>) {
    |ps| == 5 &&
    ps[0].name == TicketEventNoName && ps[1].name == GateNoName &&
    ps[2].name == MemberGuidName && ps[3].name == TicketCountName &&
    ps[4].name == IsSuccessName
  }

  datatype SqlDbType = Int | UniqueIdentifier | TinyInt | Bit

  /** A parameter value: `Null` is a C# null reference, `DBNull` is DBNull.Value. */
  datatype SqlValue = Null | DBNull | IntValue(i: int) | GuidValue(g: Guid) | BitValue(b: bool)

  datatype Direction = Input | Output

  datatype SqlParameter = SqlParameter(name: string, dbType: SqlDbType, value: SqlValue, direction: Direction)

  /** The value a boxed `Nullable<Guid>` becomes. */
  function GuidValueOf(g: Option<Guid>): SqlValue {
    match g
    case Some(v) => GuidValue(v)
    case None => Null
  }

  /** The position of the first parameter called `name`, or -1: the collection's IndexOf. */
  function IndexOf(ps: seq<SqlParameter>, name: string): (i: int)
    ensures -1 <= i < |ps|
    ensures i >= 0 ==> ps[i].name == name && forall j :: 0 <= j < i ==> ps[j].name != name
    ensures i == -1 ==> forall j :: 0 <= j < |ps| ==> ps[j].name != name
  {
    if ps == [] then -1
    else if ps[0].name == name then 0
    else
      var i := IndexOf(ps[1..], name);
      if i == -1 then -1 else i + 1
  }

  /** `Parameters.Add(name, dbType)`: a new input parameter whose value is null. */
  function AddParameter(ps: seq<SqlParameter>, name: string, dbType: SqlDbType): seq<SqlParameter> {
    ps + [SqlParameter(name, dbType, Null, Input)]
  }

  /** `Parameters[name].Value = v`; the indexer requires the name to be present. */
  function SetValue(ps: seq<SqlParameter>, name: string, v: SqlValue): (r: seq<SqlParameter>)
    requires IndexOf(ps, name) >= 0
    ensures |r| == |ps|
    ensures forall j :: 0 <= j < |ps| ==> r[j].name == ps[j].name && r[j].dbType == ps[j].dbType
    ensures forall j :: 0 <= j < |ps| ==> r[j].direction == ps[j].direction
    ensures forall j :: 0 <= j < |ps| ==> r[j].value == if j == IndexOf(ps, name) then v else ps[j].value
  {
    var i := IndexOf(ps, name);
    ps[i := ps[i].(value := v)]
  }

  /** `Parameters[name].Direction = d`. */
  function SetDirection(ps: seq<SqlParameter>, name: string, d: Direction): (r: seq<SqlParameter>)
    requires IndexOf(ps, name) >= 0
    ensures |r| == |ps|
    ensures forall j :: 0 <= j < |ps| ==> r[j].name == ps[j].name && r[j].dbType == ps[j].dbType
    ensures forall j :: 0 <= j < |ps| ==> r[j].value == ps[j].value
    ensures forall j :: 0 <= j < |ps| ==> r[j].direction == if j == IndexOf(ps, name) then d else ps[j].direction
  {
    var i := IndexOf(ps, name);
    ps[i := ps[i].(direction := d)]
  }

  /** The parameters BuyTicketAuto sends for `buyer`, as the procedure receives them. */
  function BuyRequest(buyer: TicketBuyer): (ps: seq<SqlParameter>)
    ensures NamesAt(ps)
    ensures ps[0].dbType == Int && ps[1].dbType == Int && ps[2].dbType == UniqueIdentifier
    ensures ps[3].dbType == TinyInt && ps[4].dbType == Bit
    ensures ps[4].value == DBNull && ps[4].direction == Output
    ensures forall j :: 0 <= j < 4 ==> ps[j].direction == Input
  {
    [ SqlParameter(TicketEventNoName, Int, IntValue(buyer.ticketEventNo), Input),
      SqlParameter(GateNoName, Int, IntValue(buyer.gateNo), Input),
      SqlParameter(MemberGuidName, UniqueIdentifier, GuidValueOf(buyer.memberGuid), Input),
      SqlParameter(TicketCountName, TinyInt, IntValue(buyer.ticketCount), Input),
      SqlParameter(IsSuccessName, Bit, DBNull, Output) ]
  }

  /** The buyer a stored procedure reads back from a parameter list, if the list has that shape. */
  function ReadBuyer(ps: seq<SqlParameter>): Option<TicketBuyer> {
    if |ps| == 5
       && ps[0].value.IntValue? && InInt32Range(ps[0].value.i)
       && ps[1].value.IntValue? && InInt32Range(ps[1].value.i)
       && (ps[2].value.GuidValue? || ps[2].value.Null?)
       && ps[3].value.IntValue? && InInt32Range(ps[3].value.i)
    then
      var guid := if ps[2].value.GuidValue? then Some(ps[2].value.g) else None;
      Some(TicketBuyer(ps[0].value.i, ps[1].value.i, guid, ps[3].value.i))
    else None
  }

  /**
    The request carries the buyer unchanged: the buyer's event number, gate,
    GUID and count can be read back from it, and only the success flag, which
    starts as DBNull, is an output.
   */
  lemma BuyRequestCarriesBuyer(buyer: TicketBuyer)
    ensures ReadBuyer(BuyRequest(buyer)) == Some(buyer)
    ensures var ps := BuyRequest(buyer);
      var k := IndexOf(ps, IsSuccessName);
      k >= 0 && ps[k].value == DBNull && ps[k].direction == Output &&
      forall j :: 0 <= j < |ps| && j != k ==> ps[j].direction == Input
  {
    assert NamesAt(BuyRequest(buyer));
  }

  /**
    Decodes the output flag the procedure left: DBNull (None) counts as a
    failed purchase, anything else is its boolean value.
   */
  function IsSuccessOf(flag: Option<bool>): (ok: bool)
    ensures ok <==> flag == Some(true)
  {
    if flag.None? then false else flag.value
  }

  /**
    Sends `buyer` to the stored procedure: fills the parameter collection one
    step at a time, runs `procedure` on it and decodes the output flag.
   */
  method BuyTicketAuto(buyer: TicketBuyer, procedure: seq<SqlParameter> -> Option<bool>)
    returns (sent: seq<SqlParameter>, ok: bool)
    ensures sent == BuyRequest(buyer)
    ensures ReadBuyer(sent) == Some(buyer)
    ensures ok <==> procedure(sent) == Some(true)
  {
    var ps: seq<SqlParameter> := [];
    ps := AddParameter(ps, TicketEventNoName, Int);
    ps := AddParameter(ps, GateNoName, Int);
    ps := AddParameter(ps, MemberGuidName, UniqueIdentifier);
    ps := AddParameter(ps, TicketCountName, TinyInt);
    ps := AddParameter(ps, IsSuccessName, Bit);
    assert NamesAt(ps);

    ps := SetValue(ps, TicketEventNoName, IntValue(buyer.ticketEventNo));
    ps := SetValue(ps, GateNoName, IntValue(buyer.gateNo));
    ps := SetValue(ps, MemberGuidName, GuidValueOf(buyer.memberGuid));
    ps := SetValue(ps, TicketCountName, IntValue(buyer.ticketCount));
    ps := SetValue(ps, IsSuccessName, DBNull);

    ps := SetDirection(ps, IsSuccessName, Output);

    sent := ps;
    BuyRequestCarriesBuyer(buyer);
    return sent, IsSuccessOf(procedure(sent));
  }
}
