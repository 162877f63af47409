/**
 * Order processing: from the confirmed orders of one day to one record per
 * order that bought a ticket for the target event, and the day's ticket count.
 */
module Orders {
  import opened Wrappers
  import opened Rounding

  /** One line-ticket of an order: the event it is for and its price as parsed by `float`. */
  datatype Ticket = Ticket(eventId: string, price: real)

  /** A donation on an order; its `amount` field may be missing. */
  datatype Donation = Donation(amount: Option<real>)

  /** An order as the box office returns it. A missing `donations` or
      `tickets` list is the empty sequence. */
  datatype Order = Order(
    id: string,
    total: real,
    totalTransactionCharges: Option<real>,
    donations: seq<Donation>,
    tickets: seq<Ticket>)

  /** The record emitted for a matching order ("Order ID", "Ticket Revenue",
      "Donation", "Number of Tickets", "Ticket Price"). */
  datatype Processed = Processed(
    orderId: string,
    ticketRevenue: real,
    donation: real,
    numberOfTickets: int,
    ticketPrice: real)

  /** What `process_orders` returns: a non-empty list, or the sentinel
      string "No matching orders found". */
  datatype ProcessResult = Found(records: seq<Processed>) | NoMatch

  /** Sum of the donation amounts, a missing amount counting as 0. */
  function DonationTotal(ds: seq<Donation>): (total: real)
    ensures (forall i :: 0 <= i < |ds| ==> ds[i].amount.None?) ==> total == 0.0
  {
    if ds == [] then 0.0
    else DonationTotal(ds[..|ds| - 1]) + ds[|ds| - 1].amount.GetOr(0.0)
  }

  lemma {:induction false} DonationTotalAppend(a: seq<Donation>, b: seq<Donation>)
    ensures DonationTotal(a + b) == DonationTotal(a) + DonationTotal(b)
  {
    if b != [] {
      assert (a + b)[..|a + b| - 1] == a + b[..|b| - 1];
      DonationTotalAppend(a, b[..|b| - 1]);
    } else {
      assert a + b == a;
    }
  }

  /** A donation whose amount is missing contributes nothing, wherever it stands. */
  lemma MissingDonationCountsZero(a: seq<Donation>, b: seq<Donation>)
    ensures DonationTotal(a + [Donation(None)] + b) == DonationTotal(a + b)
  {
    DonationTotalAppend(a + [Donation(None)], b);
    DonationTotalAppend(a, b);
    assert (a + [Donation(None)])[..|a|] == a;
  }

  /** The divisor used for a ticket price: 1 in place of 0. */
  function EffectivePrice(price: real): (d: real)
    ensures d != 0.0
    ensures price != 0.0 ==> d == price
    ensures price == 0.0 ==> d == 1.0
  {
    if price != 0.0 then price else 1.0
  }

  /** The record built for order `o` from its matching ticket `t`. */
  function Record(o: Order, t: Ticket): (p: Processed)
    ensures p.orderId == o.id && p.ticketPrice == t.price
    ensures p.donation == DonationTotal(o.donations)
    ensures p.ticketRevenue + p.donation == o.total
    ensures IsHalfEvenRounding(
              (p.ticketRevenue - o.totalTransactionCharges.GetOr(0.0)) / EffectivePrice(t.price),
              p.numberOfTickets)
  {
    var donation := DonationTotal(o.donations);
    var revenue := o.total - donation;
    var charges := o.totalTransactionCharges.GetOr(0.0);
    Processed(o.id, revenue, donation, RoundHalfEven((revenue - charges) / EffectivePrice(t.price)), t.price)
  }

  /** The first ticket for `eventId`, if any. */
  function FirstMatch(ts: seq<Ticket>, eventId: string): (r: Option<Ticket>)
    ensures r.None? <==> forall i :: 0 <= i < |ts| ==> ts[i].eventId != eventId
  {
    if ts == [] then None
    else if ts[0].eventId == eventId then Some(ts[0])
    else FirstMatch(ts[1..], eventId)
  }

  lemma {:induction false} FirstMatchAt(ts: seq<Ticket>, eventId: string, i: nat)
    requires i < |ts| && ts[i].eventId == eventId
    requires forall j :: 0 <= j < i ==> ts[j].eventId != eventId
    ensures FirstMatch(ts, eventId) == Some(ts[i])
  {
    if i > 0 {
      FirstMatchAt(ts[1..], eventId, i - 1);
    }
  }

  /** What one order contributes: one record for its first ticket for the event, or nothing. */
  function RecordsOf(o: Order, eventId: string): (rs: seq<Processed>)
    ensures |rs| <= 1
    ensures rs == [] <==> FirstMatch(o.tickets, eventId).None?
  {
    match FirstMatch(o.tickets, eventId)
    case None => []
    case Some(t) => [Record(o, t)]
  }

  /** The records `process_orders` collects, in input order. */
  function MatchingRecords(os: seq<Order>, eventId: string): (rs: seq<Processed>)
    ensures |rs| <= |os|
  {
    if os == [] then []
    else MatchingRecords(os[..|os| - 1], eventId) + RecordsOf(os[|os| - 1], eventId)
  }

  /** The sentinel replaces an empty list. */
  function Classify(records: seq<Processed>): (r: ProcessResult)
    ensures r.NoMatch? <==> records == []
    ensures r.Found? ==> r.records == records
  {
    if records == [] then NoMatch else Found(records)
  }

  /** The value `process_orders(os, eventId)` returns. */
  function ProcessSpec(os: seq<Order>, eventId: string): (r: ProcessResult)
    ensures r.NoMatch? <==> MatchingRecords(os, eventId) == []
    ensures r.Found? ==> r.records == MatchingRecords(os, eventId) && r.records != []
  {
    Classify(MatchingRecords(os, eventId))
  }

  /** Processing a concatenation processes each part on its own: an order's
      contribution does not depend on its neighbours, and order is kept. */
  lemma {:induction false} MatchingRecordsAppend(a: seq<Order>, b: seq<Order>, eventId: string)
    ensures MatchingRecords(a + b, eventId) == MatchingRecords(a, eventId) + MatchingRecords(b, eventId)
  {
    if b == [] {
      assert a + b == a;
    } else {
      var init, last := b[..|b| - 1], b[|b| - 1];
      assert (a + b)[..|a + b| - 1] == a + init && (a + b)[|a + b| - 1] == last;
      MatchingRecordsAppend(a, init, eventId);
      assert MatchingRecords(a + b, eventId) == MatchingRecords(a + init, eventId) + RecordsOf(last, eventId);
      assert MatchingRecords(b, eventId) == MatchingRecords(init, eventId) + RecordsOf(last, eventId);
    }
  }

  /** The orders that have at least one ticket for the event, in input order. */
  function MatchingOrders(os: seq<Order>, eventId: string): (ms: seq<Order>)
    ensures |ms| <= |os|
    ensures forall m :: m in ms ==> m in os && FirstMatch(m.tickets, eventId).Some?
  {
    if os == [] then []
    else
      var init, last := os[..|os| - 1], os[|os| - 1];
      assert forall m :: m in init ==> m in os;
      MatchingOrders(init, eventId) + if FirstMatch(last.tickets, eventId).Some? then [last] else []
  }

  /** Filtering a concatenation filters each part, keeping input order. */
  lemma {:induction false} MatchingOrdersAppend(a: seq<Order>, b: seq<Order>, eventId: string)
    ensures MatchingOrders(a + b, eventId) == MatchingOrders(a, eventId) + MatchingOrders(b, eventId)
  {
    if b == [] {
      assert a + b == a;
    } else {
      var init, last := b[..|b| - 1], b[|b| - 1];
      assert (a + b)[..|a + b| - 1] == a + init && (a + b)[|a + b| - 1] == last;
      MatchingOrdersAppend(a, init, eventId);
      var tail := if FirstMatch(last.tickets, eventId).Some? then [last] else [];
      assert MatchingOrders(a + b, eventId) == MatchingOrders(a + init, eventId) + tail;
      assert MatchingOrders(b, eventId) == MatchingOrders(init, eventId) + tail;
    }
  }

  /** Every order with a ticket for the event is kept. */
  lemma {:induction false} MatchingOrdersKeepsEvery(os: seq<Order>, eventId: string)
    ensures forall i :: 0 <= i < |os| && FirstMatch(os[i].tickets, eventId).Some? ==> os[i] in MatchingOrders(os, eventId)
  {
    if os != [] {
      var init := os[..|os| - 1];
      MatchingOrdersKeepsEvery(init, eventId);
      assert forall i :: 0 <= i < |init| ==> init[i] == os[i];
    }
  }

  /** The records are exactly the matching orders, in order, one record per
      order, each built from that order's first ticket for the event; so an
      order with several tickets for the event still yields one record, and
      an order with none yields nothing. */
  lemma {:induction false} RecordsFollowMatchingOrders(os: seq<Order>, eventId: string)
    ensures |MatchingRecords(os, eventId)| == |MatchingOrders(os, eventId)|
    ensures forall k :: 0 <= k < |MatchingOrders(os, eventId)| ==>
              MatchingRecords(os, eventId)[k]
              == Record(MatchingOrders(os, eventId)[k], FirstMatch(MatchingOrders(os, eventId)[k].tickets, eventId).value)
  {
    if os != [] {
      var init, last := os[..|os| - 1], os[|os| - 1];
      var ms, rs := MatchingOrders(init, eventId), MatchingRecords(init, eventId);
      RecordsFollowMatchingOrders(init, eventId);
      if FirstMatch(last.tickets, eventId).Some? {
        assert MatchingOrders(os, eventId) == ms + [last];
        assert MatchingRecords(os, eventId) == rs + [Record(last, FirstMatch(last.tickets, eventId).value)];
      } else {
        assert MatchingOrders(os, eventId) == ms;
        assert MatchingRecords(os, eventId) == rs;
      }
    }
  }

  /** Nothing matches exactly when no order has a ticket for the event. */
  lemma {:induction false} NoRecordsIff(os: seq<Order>, eventId: string)
    ensures MatchingRecords(os, eventId) == [] <==>
            forall i :: 0 <= i < |os| ==> FirstMatch(os[i].tickets, eventId).None?
  {
    if os != [] {
      var init, last := os[..|os| - 1], os[|os| - 1];
      NoRecordsIff(init, eventId);
      assert forall i :: 0 <= i < |init| ==> init[i] == os[i];
      var a, b := MatchingRecords(init, eventId), RecordsOf(last, eventId);
      assert MatchingRecords(os, eventId) == a + b;
      assert a + b == [] <==> a == [] && b == [];
      assert b == [] <==> FirstMatch(last.tickets, eventId).None?;
    }
  }

  /** `process_orders`: scan each order's tickets; on the first ticket for
      the event, emit the order's record and stop scanning that order. */
  method ProcessOrders(orders: seq<Order>, eventId: string) returns (r: ProcessResult)
    ensures r == ProcessSpec(orders, eventId)
    ensures r.Found? ==> r.records != []
    ensures r.NoMatch? <==> forall i :: 0 <= i < |orders| ==> FirstMatch(orders[i].tickets, eventId).None?
  {
    var matching: seq<Processed> := [];
    for i := 0 to |orders|
      invariant matching == MatchingRecords(orders[..i], eventId)
    {
      var order := orders[i];
      assert orders[..i + 1][..i] == orders[..i];
      var j := 0;
      while j < |order.tickets|
        invariant 0 <= j <= |order.tickets|
        invariant forall k :: 0 <= k < j ==> order.tickets[k].eventId != eventId
        invariant matching == MatchingRecords(orders[..i], eventId)
      {
        var ticket := order.tickets[j];
        if ticket.eventId == eventId {
          FirstMatchAt(order.tickets, eventId, j);
          matching := matching + [Record(order, ticket)];
          break;
        }
        j := j + 1;
      }
      assert matching == MatchingRecords(orders[..i + 1], eventId);
    }
    assert orders[..|orders|] == orders;
    NoRecordsIff(orders, eventId);
    r := if matching != [] then Found(matching) else NoMatch;
  }

  /** The ticket count over the records: `Number of Tickets` summed over
      the records whose `Ticket Revenue` is positive. */
  function TotalTickets(rs: seq<Processed>): (n: int)
    ensures (forall i :: 0 <= i < |rs| ==> rs[i].ticketRevenue <= 0.0) ==> n == 0
    ensures (forall i :: 0 <= i < |rs| ==> rs[i].numberOfTickets >= 0) ==> n >= 0
  {
    if rs == [] then 0
    else TotalTickets(rs[..|rs| - 1])
         + (if rs[|rs| - 1].ticketRevenue > 0.0 then rs[|rs| - 1].numberOfTickets else 0)
  }

  /** The records with positive revenue, in order. */
  function PositiveRevenue(rs: seq<Processed>): (ps: seq<Processed>)
    ensures forall p :: p in ps ==> p in rs && p.ticketRevenue > 0.0
    ensures |ps| <= |rs|
  {
    if rs == [] then []
    else if rs[0].ticketRevenue > 0.0 then [rs[0]] + PositiveRevenue(rs[1..])
    else PositiveRevenue(rs[1..])
  }

  /** Filtering a concatenation filters each part, keeping input order. */
  lemma {:induction false} PositiveRevenueAppend(a: seq<Processed>, b: seq<Processed>)
    ensures PositiveRevenue(a + b) == PositiveRevenue(a) + PositiveRevenue(b)
  {
    if a == [] {
      assert a + b == b;
    } else {
      assert (a + b)[0] == a[0] && (a + b)[1..] == a[1..] + b;
      PositiveRevenueAppend(a[1..], b);
    }
  }

  /** Every record with positive revenue is kept. */
  lemma {:induction false} PositiveRevenueKeepsEvery(rs: seq<Processed>)
    ensures forall i :: 0 <= i < |rs| && rs[i].ticketRevenue > 0.0 ==> rs[i] in PositiveRevenue(rs)
  {
    if rs != [] {
      PositiveRevenueKeepsEvery(rs[1..]);
      assert forall i :: 1 <= i < |rs| ==> rs[i] == rs[1..][i - 1];
    }
  }

  /** Plain sum of `Number of Tickets`. */
  function SumTickets(rs: seq<Processed>): int
  {
    if rs == [] then 0 else rs[0].numberOfTickets + SumTickets(rs[1..])
  }

  lemma {:induction false} TotalTicketsAppend(a: seq<Processed>, b: seq<Processed>)
    ensures TotalTickets(a + b) == TotalTickets(a) + TotalTickets(b)
  {
    if b == [] {
      assert a + b == a;
    } else {
      assert (a + b)[..|a + b| - 1] == a + b[..|b| - 1];
      TotalTicketsAppend(a, b[..|b| - 1]);
    }
  }

  /** The ticket count is the plain sum over the positive-revenue records:
      records with non-positive revenue (refunds) are left out entirely. */
  lemma {:induction false} TotalTicketsIsSumOverPositive(rs: seq<Processed>)
    ensures TotalTickets(rs) == SumTickets(PositiveRevenue(rs))
  {
    if rs != [] {
      TotalTicketsIsSumOverPositive(rs[1..]);
      assert rs == [rs[0]] + rs[1..];
      TotalTicketsAppend([rs[0]], rs[1..]);
      assert TotalTickets([rs[0]]) == if rs[0].ticketRevenue > 0.0 then rs[0].numberOfTickets else 0 by {
        assert [rs[0]][..0] == [];
      }
    }
  }

  /** `calculate_total_tickets`: a number for a list, nothing for the sentinel. */
  function CalculateTotalTickets(r: ProcessResult): (n: Option<int>)
    ensures n.None? <==> r.NoMatch?
    ensures r.Found? ==> n == Some(SumTickets(PositiveRevenue(r.records)))
  {
    match r
    case NoMatch => None
    case Found(records) => TotalTicketsIsSumOverPositive(records); Some(TotalTickets(records))
  }

  /** A worked order: total 100, one donation of 10, charges 5, one ticket for
      E1 at 17 gives revenue 90 and round(85 / 17) = 5 tickets. */
  lemma WorkedOrder()
    ensures ProcessSpec([Order("O1", 100.0, Some(5.0), [Donation(Some(10.0))], [Ticket("E1", 17.0)])], "E1")
            == Found([Processed("O1", 90.0, 10.0, 5, 17.0)])
  {
    var o := Order("O1", 100.0, Some(5.0), [Donation(Some(10.0))], [Ticket("E1", 17.0)]);
    assert DonationTotal(o.donations) == 10.0 by {
      assert o.donations[..0] == [];
    }
    RoundHalfEvenOfInteger(5);
    assert [o][..0] == [];
  }

  /** A refunded order's tickets are left out of the count. */
  lemma WorkedTotal()
    ensures TotalTickets([Processed("A", 90.0, 0.0, 5, 17.0), Processed("B", -20.0, 0.0, 3, 17.0)]) == 5
  {
    var a, b := Processed("A", 90.0, 0.0, 5, 17.0), Processed("B", -20.0, 0.0, 3, 17.0);
    assert [a, b][..1] == [a];
    assert [a][..0] == [];
  }
}
