# Box-office reporting core, modelled in Dafny

This project models the logic of a scheduled reporting job for a box-office
ticketing API. The job signs each API request, turns the raw order and
performance-instance records into report metrics, and hands those metrics to
a spreadsheet writer. The model covers:

- **Request signing** (`authorize.py`). The string to sign is the upper-cased
  HTTP method, the URI and the date, joined by newlines. The signature is
  base64 of HMAC-SHA1, keyed with the base64-decoded secret key, over the
  UTF-8 bytes of that string. The headers are `Authorization: SpektrixAPI3
  user:signature`, a fixed `Content-Type` and `Host`, and the `Date` used in
  signing.
- **Order processing** (`orders.py`). For each order that has a ticket for the
  target event, exactly one record is made from the order's first such
  ticket. Ticket revenue is the total minus donations. The ticket count is
  `round((revenue - charges) / price)`, with a price of 0 replaced by 1. When
  nothing matches, a sentinel is returned. The daily ticket total counts only
  records with positive revenue.
- **Instances and capacity** (`instances.py`). The instances of the event
  become a map from start time to instance id. Each instance's seat status is
  then merged in, with `extra_locks` subtracted from its locked count. The
  capacity summary gives totals and rounded fractions.
- **Weekly aggregation** (`weekly.py`). Order processing runs for each of the
  seven days ending yesterday. The week's average ticket price is also
  computed.

Files: `wrappers.dfy` (Option), `bytes.dfy` (octets), `rounding.dfy` (Python's
`round`), `ordered_dict.dfy` (Python's insertion-ordered `dict`),
`orders.dfy`, `instances.dfy`, `weekly.dfy`, `base64.dfy` (section 4 of RFC
4648), `utf8.dfy` (RFC 3629) and `authorize.dfy`.

Modelling choices:

- Money is `real`. Python's `round(x)` is `Rounding.RoundHalfEven`: the
  nearest integer, with ties going to the even one. `round(x, 2)` is
  `Rounding.Round2`.
- A Python `dict` is a sequence of key/value pairs in insertion order, with
  distinct keys. Assigning to an existing key replaces the value in place.
  Assigning to a new key appends a pair.
- The "No matching orders found" sentinel is the `NoMatch` variant of
  `Orders.ProcessResult`.
- Network fetches are inputs:
  - the instance list is an `Option<seq<Instance>>`;
  - the per-instance status fetch is a function from instance id to
    `Option<RawStatus>`;
  - the per-day order fetch is a function from day number to
    `Option<seq<Order>>`.

  `None` stands for a non-200 response.
- Days are consecutive integers. The weekly dict is keyed by day number, not
  by the formatted date string.
- HMAC-SHA1 is the function parameter `hmacSha1`, so it is left
  uninterpreted.
- A Python exception is a `None` result. The model has three:
  - `b64decode` of a malformed key;
  - `process_orders(None)` in `get_weekly_orders`;
  - `generate_headers` when signing fails.

A failed day makes the whole week fail. `get_orders_by_confirmation_date`
returns `None` on any status other than 200 (orders.py:28-33).
`get_weekly_orders` passes that result straight to `process_orders`
(weekly.py:24-30). `process_orders` then raises, because it iterates its
argument (orders.py:37). So `Weekly.GetWeeklyOrders` returns `None` exactly
when some day's fetch failed.

## Model

| member | source | states |
|---|---|---|
| `Rounding.RoundHalfEven` | orders.py:50 | the result is an integer within 1/2 of the argument, and on a tie it is even |
| `Rounding.RoundHalfEvenUnique` | orders.py:50 | any integer that is a half-even rounding of `x` equals `RoundHalfEven(x)`, so the model's round is exactly Python's |
| `Rounding.Round2` | weekly.py:78 | `round(x, 2)` is within 0.005 of `x` and is a whole number of hundredths; its number of hundredths is the half-even rounding of 100·x, so a tie goes to the even hundredth |
| `Rounding.Round2Unique` | weekly.py:78 | any whole number of hundredths whose count is a half-even rounding of 100·x equals `Round2(x)`, so only one value meets `Round2`'s contract |
| `Rounding.Round2Tie` | weekly.py:78 | 0.125 rounds to 0.12, the even hundredth |
| `OrderedDict.Put` | instances.py:72 | after `d[k] = v`, `k` maps to `v` and every other key maps as before; a new key is appended at the end; an existing key keeps its position |
| `OrderedDict.PutKeepsDistinctKeys` | instances.py:72 | assignment keeps keys distinct |
| `OrderedDict.GetAppend` | weekly.py:34 | appending a pair changes only the lookup of its own key, and only when that key was absent |
| `Orders.DonationTotal` | orders.py:45-46 | a list of donations none of which carries an amount sums to 0 |
| `Orders.DonationTotalAppend` | orders.py:45-46 | the donation sum of a concatenation is the sum of the two parts' sums |
| `Orders.MissingDonationCountsZero` | orders.py:46 | a donation with no amount adds nothing to the donation sum, wherever it stands |
| `Orders.EffectivePrice` | orders.py:49 | the divisor is never 0; it is the ticket price whenever that price is not 0, and 1 when the price is 0 |
| `Orders.Record` | orders.py:41-57 | the record lists the order id and the parsed ticket price; ticket revenue plus donation equals the order total; donation is the sum of all donation amounts; ticket count is a half-even rounding of (revenue − charges, a missing value counting as 0) / effective price |
| `Orders.FirstMatch` | orders.py:39-40 | there is no match exactly when no ticket of the order is for the event |
| `Orders.FirstMatchAt` | orders.py:39-58 | the ticket at which the scan stops (the first one for the event) is the one the record is built from |
| `Orders.RecordsOf` | orders.py:38-58 | an order contributes at most one record, and none exactly when no ticket of the order is for the event |
| `Orders.MatchingRecords` | orders.py:36-58 | there are never more records than orders |
| `Orders.Classify` | orders.py:60 | the sentinel is returned exactly when the list of matches is empty; otherwise that list is returned |
| `Orders.ProcessSpec` | orders.py:35-60 | the sentinel exactly when there are no matching records; otherwise the matching records, which are then non-empty |
| `Orders.MatchingRecordsAppend` | orders.py:36-58 | processing a concatenation of orders gives each part's records, in order, so no order's contribution depends on its neighbours |
| `Orders.MatchingOrders` | orders.py:37-40 | every matching order is an input order that has a ticket for the event, and there are no more of them than input orders |
| `Orders.MatchingOrdersKeepsEvery` | orders.py:37-40 | conversely, every input order that has a ticket for the event is a matching order |
| `Orders.MatchingOrdersAppend` | orders.py:36-40 | the matching orders of a concatenation are those of the first part followed by those of the second, so input order is kept |
| `Orders.RecordsFollowMatchingOrders` | orders.py:36-58 | the k-th record is built from the k-th matching order and that order's first ticket for the event; so there is one record per matching order, in input order, even when an order has several tickets for the event |
| `Orders.NoRecordsIff` | orders.py:37-60 | there are no records exactly when no order has a ticket for the event |
| `Orders.ProcessOrders` | orders.py:35-60 | the nested scan with `break` returns the matching records of the specification; a returned list is never empty; the sentinel comes back exactly when no order has a ticket for the event |
| `Orders.TotalTickets` | orders.py:67 | the count is 0 when no record has positive revenue, and not negative when no record's ticket count is negative |
| `Orders.PositiveRevenue` | orders.py:67 | every kept record is an input record with positive ticket revenue, and there are no more kept records than input records |
| `Orders.PositiveRevenueKeepsEvery` | orders.py:67 | conversely, every input record with positive ticket revenue is kept |
| `Orders.PositiveRevenueAppend` | orders.py:67 | filtering a concatenation filters each part, keeping input order |
| `Orders.TotalTicketsAppend` | orders.py:67 | the ticket count of a concatenation is the sum of the two parts' counts |
| `Orders.TotalTicketsIsSumOverPositive` | orders.py:67 | the ticket count is the plain sum of `Number of Tickets` over exactly the positive-revenue records |
| `Orders.CalculateTotalTickets` | orders.py:65-70 | the sentinel gives no number; a list gives the sum of ticket counts over its positive-revenue records |
| `Orders.WorkedOrder` | orders.py:41-60 | an order with total 100, donation 10, charges 5 and one E1 ticket at 17 gives revenue 90 and 5 tickets |
| `Orders.WorkedTotal` | orders.py:67 | records (5 tickets, revenue 90) and (3 tickets, revenue −20) have ticket count 5 |
| `Instances.LastMatchIsLastKept` | instances.py:66-73 | a start time has no entry exactly when no instance of the event starts then; otherwise its entry is the id of a kept instance with that start time, and no later kept instance has the same start time |
| `Instances.FilterInstancesByEvent` | instances.py:66-73 | the loop's dict has distinct keys; each start time maps to the id of the last instance of the event with that start time, or is absent; the keys are the event's start times in order of first appearance (`KeptStarts`) |
| `Instances.KeptStarts` | instances.py:66-73 | a start time is listed exactly when some instance of the event starts then |
| `Instances.StatusFrom` | instances.py:90-95 | sold and available pass through unchanged; the stored locked count plus `extra_locks` equals the raw locked count, with no clamping |
| `Instances.GetEventInstancesStatuses` | instances.py:75-106 | a failed instance-list fetch gives None, and only then; otherwise a start time has an entry exactly when an instance of the event starts then and the status fetch of its (last) instance succeeded, and that entry is built from that status; the keys keep the first-appearance order of the start times, less those whose status fetch failed (`StartsWithStatus`), which is the order the sheet writer iterates in |
| `Instances.StartsWithStatus` | instances.py:87-90 | every start time kept is one of the given ones, belongs to an instance of the event, and that instance's status fetch succeeded |
| `Instances.TotalsAppend` | instances.py:114-117 | the totals of a concatenation are the sums of the parts' totals |
| `Instances.TotalsNonNegative` | instances.py:114-117 | each total is not negative when that count is not negative in any status |
| `Instances.TotalsPermutation` | instances.py:114-117 | any rearrangement of the statuses (the same multiset) has the same totals |
| `Instances.PercentOf` | instances.py:122-136 | the percentage is 0 when capacity is not positive; otherwise it is within 0.005 of count / capacity, and its number of hundredths is the half-even rounding of 100 · count / capacity; it is always a whole number of hundredths |
| `Instances.OneInEight` | instances.py:134 | 1 seat of 8 is 0.12: the tie at 0.125 goes to the even hundredth |
| `Instances.CalculateEventCapacitySummary` | instances.py:108-142 | the totals are the sums of sold, locked and available over all statuses; each percentage is its total as a rounded fraction of their sum |
| `Instances.PercentagesSumToOne` | instances.py:120-136 | with positive capacity the three percentages add up to 1 within 0.015; otherwise all three are 0 |
| `Weekly.RevenueSum` | weekly.py:37 | the day's revenue is not negative when no record's revenue is, and not positive when no record's revenue is positive |
| `Weekly.DayTotalsOf` | weekly.py:34-38 | the sentinel gives tickets, orders and revenue of 0; a list gives its length, its revenue summed over every record, and its positive-revenue ticket count |
| `Weekly.QuietDayIsZero` | weekly.py:30-38 | a day on which no order has a ticket for the event reports zeros |
| `Weekly.GetWeeklyOrders` | weekly.py:9-43 | None exactly when some day from yesterday−6 to yesterday failed to fetch (`AllDaysFetched` fails); otherwise the week (`IsWeek`): exactly 7 entries with distinct keys, the i-th for day yesterday−6+i, holding that day's processed totals |
| `Weekly.TicketsSum` | weekly.py:74 | the week's ticket total is not negative when no day's total is |
| `Weekly.NoTicketsSumZero` | weekly.py:74 | the week's ticket total is 0 when every day has 0 tickets |
| `Weekly.RevenueTotal` | weekly.py:75 | the week's revenue is not negative when no day's revenue is |
| `Weekly.GetAverageTicketPrice` | weekly.py:73-79 | 0.0 when the week's ticket total is not positive; otherwise within 0.005 of total revenue / total tickets, and its number of hundredths is the half-even rounding of 100 · revenue / tickets |
| `Weekly.NoTicketsNoAverage` | weekly.py:73-79 | a week in which every day has 0 tickets has average price 0.0 |
| `Base64.Encode` | authorize.py:14 | the encoding is 4 characters per started group of 3 octets, each character from the base 64 alphabet or `=`; its padding bits are zero (section 3.5 of RFC 4648) |
| `Base64.Decode` | authorize.py:10 | a text whose length is not a multiple of 4 is refused; a text of 4n characters decodes to between 3n−2 and 3n octets, and to exactly 3n when it does not end in padding |
| `Base64.DecodedLength` | authorize.py:10 | a text that decodes is exactly as long as the encoding of the octets it gives: 4 characters per started group of 3 |
| `Base64.DecodeEncode` | authorize.py:10-14 | decoding the encoding of any octet string gives that string back |
| `Base64.EncodeOfDecodedQuantum` | authorize.py:10-14 | a 4-character group that decodes and has zero padding bits is the encoding of the octets it decodes to |
| `Base64.EncodeDecode` | authorize.py:10-14 | a text that decodes and has zero padding bits is the encoding of the octets it decodes to, so it is the only such text for those octets |
| `Utf8.Encode` | authorize.py:13 | each character takes between 1 and 4 octets |
| `Utf8.DecodeEncode` | authorize.py:13 | UTF-8 decoding undoes the encoding, so different strings to sign are different HMAC messages |
| `Utf8.EncodeAscii` | authorize.py:13 | an ASCII string encodes to its character codes, one octet each |
| `Authorize.Upper` | authorize.py:7 | upper-casing keeps the length, maps each character, and leaves no lower-case ASCII letter |
| `Authorize.StringToSign` | authorize.py:7 | the string is the upper-cased method, a newline, the uri, a newline and the date, each at its position, and nothing more |
| `Authorize.SplitStringToSignInverts` | authorize.py:7 | when method and uri have no newline, splitting the string to sign at its first two newlines recovers the upper-cased method, the uri and the date; nothing follows the date |
| `Authorize.StringToSignInjective` | authorize.py:7 | when neither method nor uri contains a newline, requests that differ in uri, in date, or in method ignoring case have different strings to sign |
| `Authorize.GenerateSignature` | authorize.py:5-16 | a signature exists exactly when the key decodes; it base64-decodes to HMAC(decoded key, UTF-8 of the string to sign); it contains no colon; its padding bits are zero |
| `Authorize.SignatureIsCanonical` | authorize.py:5-16 | any text that decodes to the HMAC and has zero padding bits is the signature, so the contract of `GenerateSignature` fixes its text |
| `Authorize.SignatureIgnoresLoginName` | authorize.py:5-16 | the login name has no influence on the signature |
| `Authorize.SignatureLength` | authorize.py:13-14 | a 20-octet digest gives a 28-character signature |
| `Authorize.AuthorizationHeader` | authorize.py:23 | the value is `SpektrixAPI3 `, the user, a colon and the signature, each at its position, and nothing more |
| `Authorize.ParseAuthorizationInverts` | authorize.py:23 | user and signature are recovered from the Authorization value for any user name, when the signature has no colon |
| `Authorize.GenerateHeaders` | authorize.py:18-33 | headers exist exactly when the key decodes; their keys are exactly Authorization, Content-Type, Host and Date, in that order; Content-Type is application/json; Host is system.spektrix.com; Date is the given date; Authorization is "SpektrixAPI3 " + user + ":" + the signature over that same date |
| `Authorize.HeadersSignTheirDate` | authorize.py:18-31 | the Authorization header names the user, and its signature decodes to the HMAC of the string to sign built with the date the Date header sends |
| `Authorize.MalformedKeyRefused` | authorize.py:10 | the secret key "not-base64!!" is refused |

## Left out

- The HTTP fetchers are not modelled, because they are network I/O. These are `get_orders_by_confirmation_date` (orders.py:5-33), `get_instances` and `get_instance_status` (instances.py:6-64). Their results are inputs, and so is the per-request RFC 1123 date they take from the clock.
- newrows.py (the spreadsheet writer), credentials.py, inputs.py and service_account_creds.py are not part of this model. They hold environment, file and Google Sheets plumbing. Their values, such as `event_id` and `extra_locks`, are parameters.
- main.py is not part of this model. It only sequences calls and checks the weekday.
- `print_weekly_summary` (weekly.py:45-71) and the prints in instances.py:139-140 and orders.py:70 are not modelled, because they are console output only. The unreachable lines orders.py:62-63 are not modelled either.
- HMAC-SHA1 internals are not modelled. HMAC-SHA1 is a function parameter, so nothing is assumed about it beyond being a function.
- IEEE double arithmetic is replaced by exact reals. `Rounding.Round2` rounds the exact value half to even. Python's `round(x, 2)` rounds the binary double, so a value like 2.675 rounds to 2.67 in Python.
- Weekly.GetWeeklyOrders: dict keys are day numbers, not the `%m/%d/%Y` strings. The formatted labels and the calendar are not modelled.
- Base64.Decode: it is the decoder of section 4 of RFC 4648, with padding only in the last group. Python's default `b64decode` is lenient: it skips characters outside the alphabet and stops at the first complete padding. Such input is refused by the model. Non-zero padding bits are accepted, as Python accepts them.
- Authorize.Upper: only ASCII letters are upper-cased. Python's `str.upper` also maps other Unicode letters, and can change a string's length. HTTP methods are ASCII.
- Parsing of the JSON fields is not modelled. That covers `float(...)` of string values, and the `KeyError` raised when a required field (`total`, `event.id`, `price`, `id`) is missing. The datatypes always carry these fields. A missing `tickets` or `donations` list is the empty sequence. `Ticket Price` keeps the parsed price, not the raw JSON value.
