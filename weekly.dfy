/**
 * The weekly view: order processing repeated over the seven days ending
 * yesterday, and the week's average ticket price.
 */
module Weekly {
  import opened Wrappers
  import opened Rounding
  import opened OrderedDict
  import opened Orders

  /** One day's entry: tickets, orders and revenue. */
  datatype DayTotals = DayTotals(tickets: int, orders: nat, revenue: real)

  /** `Ticket Revenue` summed over every record, non-positive ones included. */
  function RevenueSum(rs: seq<Processed>): (sum: real)
    ensures (forall i :: 0 <= i < |rs| ==> rs[i].ticketRevenue >= 0.0) ==> sum >= 0.0
    ensures (forall i :: 0 <= i < |rs| ==> rs[i].ticketRevenue <= 0.0) ==> sum <= 0.0
  {
    if rs == [] then 0.0 else RevenueSum(rs[..|rs| - 1]) + rs[|rs| - 1].ticketRevenue
  }

  /** A day's entry from its processing result: the sentinel gives zeros. */
  function DayTotalsOf(r: ProcessResult): (t: DayTotals)
    ensures r.NoMatch? ==> t == DayTotals(0, 0, 0.0)
    ensures r.Found? ==> t.orders == |r.records| && t.revenue == RevenueSum(r.records)
    ensures r.Found? ==> t.tickets == SumTickets(PositiveRevenue(r.records))
  {
    var total := CalculateTotalTickets(r);
    DayTotals(
      if total.Some? then total.value else 0,
      if r.Found? then |r.records| else 0,
      if r.Found? then RevenueSum(r.records) else 0.0)
  }

  /** A day on which no order has a ticket for the event reports zeros. */
  lemma QuietDayIsZero(orders: seq<Order>, eventId: string)
    requires forall i :: 0 <= i < |orders| ==> FirstMatch(orders[i].tickets, eventId).None?
    ensures DayTotalsOf(ProcessSpec(orders, eventId)) == DayTotals(0, 0, 0.0)
  {
    NoRecordsIff(orders, eventId);
  }

  /** The entry for day `d`, or None when that day's fetch failed. */
  function DayOf(d: int, eventId: string, ordersOn: int -> Option<seq<Order>>): Option<DayTotals>
  {
    match ordersOn(d)
    case None => None
    case Some(os) => Some(DayTotalsOf(ProcessSpec(os, eventId)))
  }

  /** `ws` holds, in order, the entries of the days from `startDate` on, all present. */
  predicate DaysFrom<T(==)>(ws: Dict<int, T>, startDate: int, entry: int -> Option<T>)
  {
    forall i :: 0 <= i < |ws| ==> ws[i].0 == startDate + i && entry(startDate + i) == Some(ws[i].1)
  }

  /** The next day is not yet a key, and appending its entry extends the run. */
  lemma ExtendDays<T>(ws: Dict<int, T>, startDate: int, entry: int -> Option<T>)
    requires DaysFrom(ws, startDate, entry)
    requires entry(startDate + |ws|).Some?
    ensures Get(ws, startDate + |ws|).None?
    ensures DaysFrom(ws + [(startDate + |ws|, entry(startDate + |ws|).value)], startDate, entry)
  {
    var d := startDate + |ws|;
    var v := entry(d).value;
    assert forall i :: 0 <= i < |ws| ==> ws[i].0 < d;
    var next := ws + [(d, v)];
    forall i | 0 <= i < |next| ensures next[i].0 == startDate + i && entry(startDate + i) == Some(next[i].1) {
      if i < |ws| {
        assert next[i] == ws[i];
      } else {
        assert next[i] == (d, v) && entry(d) == Some(v);
      }
    }
  }

  /** Storing the processed totals of the next day extends the run of days. */
  lemma AddDay(ws: Dict<int, DayTotals>, startDate: int, eventId: string, ordersOn: int -> Option<seq<Order>>, os: seq<Order>)
    requires DaysFrom(ws, startDate, d => DayOf(d, eventId, ordersOn))
    requires ordersOn(startDate + |ws|) == Some(os)
    ensures var next := Put(ws, startDate + |ws|, DayTotalsOf(ProcessSpec(os, eventId)));
            |next| == |ws| + 1 && DaysFrom(next, startDate, d => DayOf(d, eventId, ordersOn))
  {
    assert DayOf(startDate + |ws|, eventId, ordersOn) == Some(DayTotalsOf(ProcessSpec(os, eventId)));
    ExtendDays(ws, startDate, d => DayOf(d, eventId, ordersOn));
  }

  /** Days in a row have distinct keys, and each of them has an entry. */
  lemma DaysDone<T>(ws: Dict<int, T>, startDate: int, entry: int -> Option<T>)
    requires DaysFrom(ws, startDate, entry)
    ensures DistinctKeys(ws)
    ensures forall d :: startDate <= d < startDate + |ws| ==> entry(d).Some?
  {
    forall d | startDate <= d < startDate + |ws| ensures entry(d).Some? {
      assert ws[d - startDate].0 == d;
    }
  }

  /** Every day from `yesterday - 6` to `yesterday` was fetched. */
  predicate AllDaysFetched(yesterday: int, ordersOn: int -> Option<seq<Order>>)
  {
    forall d :: yesterday - 6 <= d <= yesterday ==> ordersOn(d).Some?
  }

  /** `ws` is the week ending `yesterday`: seven distinct days in date order,
      each holding that day's processed totals. */
  predicate IsWeek(ws: Dict<int, DayTotals>, yesterday: int, eventId: string, ordersOn: int -> Option<seq<Order>>)
    requires AllDaysFetched(yesterday, ordersOn)
  {
    && |ws| == 7
    && DistinctKeys(ws)
    && forall i :: 0 <= i < 7 ==>
         && ws[i].0 == yesterday - 6 + i
         && ws[i].1 == DayTotalsOf(ProcessSpec(ordersOn(yesterday - 6 + i).value, eventId))
  }

  /** Seven days built one by one make the week. */
  lemma WeekDone(ws: Dict<int, DayTotals>, startDate: int, eventId: string, ordersOn: int -> Option<seq<Order>>)
    requires DaysFrom(ws, startDate, d => DayOf(d, eventId, ordersOn))
    requires |ws| == 7
    ensures AllDaysFetched(startDate + 6, ordersOn)
    ensures IsWeek(ws, startDate + 6, eventId, ordersOn)
  {
    var entry := d => DayOf(d, eventId, ordersOn);
    DaysDone(ws, startDate, entry);
    forall d | startDate <= d <= startDate + 6 ensures ordersOn(d).Some? {
      assert entry(d).Some?;
    }
    forall i | 0 <= i < 7
      ensures ws[i].1 == DayTotalsOf(ProcessSpec(ordersOn(startDate + i).value, eventId))
    {
      assert entry(startDate + i) == Some(ws[i].1);
    }
  }

  /** `get_weekly_orders`, with the day-`d` fetch given as `ordersOn(d)` and
      days numbered consecutively. A failed fetch hands None to
      `process_orders`, which raises: the whole call then yields None. */
  method GetWeeklyOrders(yesterday: int, eventId: string, ordersOn: int -> Option<seq<Order>>)
    returns (r: Option<Dict<int, DayTotals>>)
    ensures r.None? <==> !AllDaysFetched(yesterday, ordersOn)
    ensures r.Some? ==> AllDaysFetched(yesterday, ordersOn) && IsWeek(r.value, yesterday, eventId, ordersOn)
  {
    var endDate := yesterday;
    var startDate := endDate - 6;
    var weeklyData: Dict<int, DayTotals> := [];
    var currentDate := startDate;
    while currentDate <= endDate
      invariant startDate <= currentDate <= endDate + 1
      invariant |weeklyData| == currentDate - startDate
      invariant DaysFrom(weeklyData, startDate, d => DayOf(d, eventId, ordersOn))
      decreases endDate - currentDate
    {
      var orders := ordersOn(currentDate);
      if orders.None? {
        assert !AllDaysFetched(yesterday, ordersOn) by {
          assert yesterday - 6 <= currentDate <= yesterday && ordersOn(currentDate).None?;
        }
        return None;
      }
      var processed := ProcessOrders(orders.value, eventId);
      AddDay(weeklyData, startDate, eventId, ordersOn, orders.value);
      weeklyData := Put(weeklyData, currentDate, DayTotalsOf(processed));
      currentDate := currentDate + 1;
    }
    WeekDone(weeklyData, startDate, eventId, ordersOn);
    r := Some(weeklyData);
  }

  /** Tickets summed over the days. */
  function TicketsSum(ds: seq<DayTotals>): (n: int)
    ensures (forall i :: 0 <= i < |ds| ==> ds[i].tickets >= 0) ==> n >= 0
  {
    if ds == [] then 0 else TicketsSum(ds[..|ds| - 1]) + ds[|ds| - 1].tickets
  }

  /** Revenue summed over the days. */
  function RevenueTotal(ds: seq<DayTotals>): (total: real)
    ensures (forall i :: 0 <= i < |ds| ==> ds[i].revenue >= 0.0) ==> total >= 0.0
  {
    if ds == [] then 0.0 else RevenueTotal(ds[..|ds| - 1]) + ds[|ds| - 1].revenue
  }

  /** `get_average_ticket_price`: the week's revenue per ticket, rounded to
      two decimals, or 0.0 when the week's ticket total is not positive. */
  function GetAverageTicketPrice(weeklyData: Dict<int, DayTotals>): (p: real)
    ensures TicketsSum(Values(weeklyData)) <= 0 ==> p == 0.0
    ensures TicketsSum(Values(weeklyData)) > 0 ==>
              -0.005 <= p - RevenueTotal(Values(weeklyData)) / TicketsSum(Values(weeklyData)) as real <= 0.005
    ensures TicketsSum(Values(weeklyData)) > 0 ==>
              IsHalfEvenHundredths(RevenueTotal(Values(weeklyData)) / TicketsSum(Values(weeklyData)) as real, p)
    ensures IsHundredths(p)
  {
    var totalTickets := TicketsSum(Values(weeklyData));
    var totalRevenue := RevenueTotal(Values(weeklyData));
    if totalTickets > 0 then Round2(totalRevenue / totalTickets as real) else 0.0
  }

  /** A week in which no day sold a ticket has average price 0.0. */
  lemma {:induction false} NoTicketsNoAverage(weeklyData: Dict<int, DayTotals>)
    requires forall i :: 0 <= i < |weeklyData| ==> weeklyData[i].1.tickets == 0
    ensures GetAverageTicketPrice(weeklyData) == 0.0
  {
    NoTicketsSumZero(Values(weeklyData));
  }

  lemma {:induction false} NoTicketsSumZero(ds: seq<DayTotals>)
    requires forall i :: 0 <= i < |ds| ==> ds[i].tickets == 0
    ensures TicketsSum(ds) == 0
  {
    if ds != [] {
      NoTicketsSumZero(ds[..|ds| - 1]);
    }
  }
}
