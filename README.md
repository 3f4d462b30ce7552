# CRM filters, order reminders and report aggregation in Dafny

This project models three pieces of logic in a small CRM backend:

- **The query filter sets.** These are `CustomerFilter`, `ProductFilter` and `OrderFilter`. Each decides which customers, products and orders a query returns for its filter arguments.
- **The order-reminder job.** It reads every order's date text. It writes one log entry for each order dated on or after the day seven days before today, and it counts the entries as it goes.
- **The report task.** It counts customers and orders and adds up the order totals.

Modules, one per file:

- `wrappers.dfy` (`Wrappers`): `Option`, and `Field`. A `Field` is one key of a JSON response object: missing, `null`, or a value.
- `seqs.dfy` (`Seqs`): `Select`, an order-preserving selection from a sequence, with its lemmas. Also `IsSubsequence`.
- `text.dfy` (`Text`): ASCII lower-casing, substring and prefix tests, and Python's `str.strip()`.
- `filters.dfy` (`Filters`): the records, the criteria of each filter set, the lookups, and the three filter functions. It also models the join and `DISTINCT` that the `product_name` lookup performs.
- `dates.dfy` (`Dates`), which covers:
  - proleptic Gregorian dates, with day numbers as `date.toordinal()` counts them;
  - `datetime.strptime(text, "%Y-%m-%d")`;
  - `datetime.fromisoformat` on text whose `Z`s are replaced by `+00:00`;
  - `date - timedelta(days=n)`.
- `reminders.dfy` (`Reminders`): the reminder loop as a method with a `while` loop. It is specified by the function `Process` and by `RunOf`, which is the whole job, including the exceptions that end it.
- `report.dfy` (`Report`): the counts and the revenue sum as functions.

The job reads today's date; here it is the parameter `today` of `SendReminders`. The API response is a parameter, and the log file is the sequence of entries the method returns.

Three points about the code:

- The code's field lists also add exact-match filters: customer `phone`, product `price` and `stock`, and order `total_amount` and `order_date`. The model includes them.
- The report treats every falsy total as zero, not only a missing or null one. A zero total adds zero either way, so the sum is the same.
- Results appear in the order of the input sequence. The store's own ordering (by primary key) is taken to be that input order.

## Model

| member | source | states |
|---|---|---|
| Filters.FilterCustomers | crm/filters.py:4-18 | the result is a subsequence of the input (order kept); every returned customer satisfies every supplied argument; every input customer that satisfies them is returned |
| Filters.MatchesCustomerMeaning | crm/filters.py:5-18 | a customer matches iff `name` and `email`, once stripped, occur in the lower-cased field; `created_at_gte`/`created_at_lte` are inclusive bounds; `phone_pattern` is a case-sensitive prefix of a non-null phone; `phone` is equal to it; an empty or missing argument is ignored |
| Filters.IContainsLookupMeaning | crm/filters.py:6-7 | an `icontains` lookup holds iff the cleaned text occurs at some offset of the field, both lower-cased, or no text was supplied |
| Text.ContainsIff | crm/filters.py:6-7 | the substring test holds exactly when the query occurs at some offset |
| Text.Strip | crm/filters.py:6-7 | the cleaned text is the submitted text with only whitespace removed around it, and neither of its ends is whitespace |
| Text.StripEmpty | crm/filters.py:6-7 | stripping leaves nothing exactly when the submitted text is all whitespace |
| Filters.Cleaned | crm/filters.py:6-7 | a text argument is ignored exactly when it is missing or all whitespace; otherwise it is `str.strip()` of the submitted text: non-empty, surrounded only by whitespace in the argument, and with no whitespace at either end |
| Filters.FilterProducts | crm/filters.py:20-31 | the result is a subsequence of the input; it is sound and complete for the product criteria |
| Filters.MatchesProductMeaning | crm/filters.py:21-31 | `name` is a case-insensitive substring; `price_*` and `stock_*` are ranges inclusive at both ends; `price` and `stock` are exact |
| Filters.CountNamed | crm/filters.py:42 | the count of products whose name contains the query is positive iff some product's name contains it, ignoring case |
| Filters.JoinProducts | crm/filters.py:41-42 | every row of the order–product join is an input order with a matching product |
| Filters.DistinctFrom | crm/filters.py:42 | `DISTINCT` returns rows of its input, none with an id already seen, and no id twice |
| Filters.MatchesOrderRowMeaning | crm/filters.py:34-40 | `total_amount_*` and `order_date_*` are ranges inclusive at both ends; `customer_name` holds iff the cleaned text occurs in the lower-cased customer name; `total_amount` and `order_date` (from the field list, line 46) are exact |
| Filters.HasProductNamedMeaning | crm/filters.py:41-42 | an order has a product named by the text iff some product's lower-cased name contains the lower-cased text at some offset |
| Filters.MatchesOrderMeaning | crm/filters.py:33-46 | an order matches iff its row matches and, when `product_name` is supplied, one of its products' names contains it |
| Filters.FilterOrders | crm/filters.py:33-46 | every returned order is an input order that satisfies every supplied argument; with `product_name`, no order id appears twice |
| Filters.SelectJoin | crm/filters.py:39-42 | the row lookups can be applied before or after the product join with the same result |
| Filters.DistinctJoin | crm/filters.py:41-42 | on orders with distinct ids, de-duplicating the join yields exactly the orders with a matching product, once each, in input order |
| Filters.FilterOrdersSelects | crm/filters.py:33-46 | on orders with distinct ids, the result equals the order-preserving selection of the orders that match every argument, `product_name` included; an input order is returned iff it matches; no id repeats |
| Dates.DaysInMonth | crm/cron_jobs/send_order_reminders.py:49 | a month has 28 to 31 days; February has 29 iff the year is a leap year |
| Dates.OrdinalOrder | crm/cron_jobs/send_order_reminders.py:52 | comparing dates field by field agrees with comparing their day numbers, both ways |
| Dates.PrevDay | crm/cron_jobs/send_order_reminders.py:37 | the day before a valid date is a valid date whose day number is one less |
| Dates.DaysEarlier | crm/cron_jobs/send_order_reminders.py:37 | subtracting `n` days gives a valid date whose day number is `n` less |
| Dates.ParseYmd | crm/cron_jobs/send_order_reminders.py:49 | whatever `strptime` accepts is a valid calendar date |
| Dates.ParseYmdIsWritten | crm/cron_jobs/send_order_reminders.py:49 | text `strptime` accepts is four digits, `-`, a month field, `-` and a day field, and the date read has the year, month and day those fields write |
| Dates.ParseYmdAccepts | crm/cron_jobs/send_order_reminders.py:49 | conversely, every text of that shape is read as the date its fields name when that date exists, and rejected otherwise |
| Dates.ParseYmdFields | crm/cron_jobs/send_order_reminders.py:49 | on zero-padded `YYYY-MM-DD` text, `strptime` returns exactly the written fields when they name an existing date, and fails otherwise (day beyond the month's length, 29 February outside leap years, year 0) |
| Dates.ParseYmdFormat | crm/cron_jobs/send_order_reminders.py:49 | the date text of every valid date is read back as that date, by `strptime` and by the job's parser |
| Dates.LeapDayAccepted | crm/cron_jobs/send_order_reminders.py:49 | `2024-02-29` is read as 29 February 2024 |
| Dates.LeapDayRejected | crm/cron_jobs/send_order_reminders.py:49 | `2023-02-29` is rejected |
| Dates.LongOffsetMinutesAccepted | crm/cron_jobs/send_order_reminders.py:49 | an offset such as `+05:75`, whose minutes exceed 59 but whose total is under a day, is read, and the date is the written one |
| Dates.NoneRejected | crm/cron_jobs/send_order_reminders.py:47-49 | the text `None` (a missing or null date) is rejected |
| Dates.ReplaceZ | crm/cron_jobs/send_order_reminders.py:49 | `replace('Z', '+00:00')` never shortens the text, and text whose length it keeps is unchanged (only a `Z` changes, and it grows) |
| Dates.ReplaceZAppend | crm/cron_jobs/send_order_reminders.py:49 | replacing in two texts and joining them is replacing in the joined text: each character is replaced on its own |
| Dates.ReplaceZNoZ | crm/cron_jobs/send_order_reminders.py:49 | text without `Z` is left as it is |
| Dates.ParseIsoDate | crm/cron_jobs/send_order_reminders.py:49 | an accepted date part is exactly how `date.isoformat()` writes the valid date returned |
| Dates.ParseIsoDateFormat | crm/cron_jobs/send_order_reminders.py:49 | conversely, the `isoformat()` text of every valid date is read back as that date |
| Dates.ParseIsoDateTime | crm/cron_jobs/send_order_reminders.py:49 | whatever the ISO reader accepts is a valid calendar date |
| Dates.IsoDateIsWritten | crm/cron_jobs/send_order_reminders.py:49 | an accepted date-time text has `T` at position 10, its first ten characters are laid out `YYYY-MM-DD`, what follows `T` (with `Z` replaced) is a time and optional offset, and its date is the one those ten characters write (they are that date's `isoformat()` text), whatever the offset: no time-zone conversion |
| Dates.ParseIsoFormat | crm/cron_jobs/send_order_reminders.py:49 | for every valid date, every time `HH[:MM[:SS[.fff\|.ffffff]]]` and no offset, `Z` or any `±HH:MM` offset of less than a day, the job reads back the written date |
| Dates.ParseOrderDate | crm/cron_jobs/send_order_reminders.py:49 | text with `T` is read by the ISO reader alone, text without `T` by `strptime` alone; any accepted date is valid |
| Reminders.Qualifies | crm/cron_jobs/send_order_reminders.py:49-52 | an order qualifies iff its date text parses and the cutoff's day number is at most the order date's |
| Reminders.Process | crm/cron_jobs/send_order_reminders.py:43-63 | the loop writes at most one entry per order |
| Reminders.RunOf | crm/cron_jobs/send_order_reminders.py:33-63 | a cutoff before 0001-01-01 or a null `allOrders` ends the job with nothing written; a missing `allOrders` completes with nothing written; at most one entry per order |
| Reminders.SendReminders | crm/cron_jobs/send_order_reminders.py:33-63 | the counter equals the number of entries; the entries and whether the job completed are those of `RunOf` on the same response and day (an overflow when computing the cutoff or a null `allOrders` writes nothing) |
| Reminders.ProcessAppend | crm/cron_jobs/send_order_reminders.py:43-63 | processing two lists in turn: the second is processed only if the first completed, and its entries follow the first's |
| Reminders.ProcessCompleted | crm/cron_jobs/send_order_reminders.py:53-63 | the loop completes iff no qualifying order has a null customer |
| Reminders.ProcessEntries | crm/cron_jobs/send_order_reminders.py:43-59 | when nothing aborts, the entries are exactly those of the qualifying orders, one each, in input order |
| Reminders.ProcessEntryFields | crm/cron_jobs/send_order_reminders.py:53-58 | when nothing aborts, the `i`-th entry names the `i`-th qualifying order's id (`None` when missing or null), and its customer's email: `Unknown` when the customer or the email is missing, `None` when the email is null, otherwise the email |
| Reminders.ProcessStops | crm/cron_jobs/send_order_reminders.py:53-63 | at the first qualifying order with a null customer the job stops, keeping the entries of the qualifying orders before it |
| Reminders.QualifiesWithinWeek | crm/cron_jobs/send_order_reminders.py:37-52 | an order qualifies iff its date parses and its day number is at least today's minus 7 (inclusive, at day granularity) |
| Reminders.SkipUnparsed | crm/cron_jobs/send_order_reminders.py:46-63 | an order whose date does not parse writes nothing, and the loop continues with the rest |
| Report.Contribution | crm/tasks.py:43 | a missing, null or zero total contributes 0; any other total contributes itself |
| Report.Revenue | crm/tasks.py:42-44 | orders whose totals are all missing, null or zero (no orders in particular) sum to 0; one order sums to its own contribution |
| Report.GenerateReport | crm/tasks.py:35-44 | the report fails iff a list is null; otherwise each count is its list's length (0 when the key is missing) and the revenue is the orders' sum (0 when the key is missing) |
| Report.ReportIndependent | crm/tasks.py:38-44 | revenue and order count do not depend on the customer list |
| Report.RevenueAppend | crm/tasks.py:42-44 | the revenue of two lists in turn is the sum of their revenues |
| Report.RevenueSkipsFalsy | crm/tasks.py:43 | inserting an order with a falsy total leaves the revenue unchanged |
| Report.RevenuePermutation | crm/tasks.py:42-44 | revenue does not depend on the order of the orders |
| Report.RevenueNonNegative | crm/tasks.py:42-44 | non-negative totals give non-negative revenue; no orders give 0 |
| Report.RevenueCountsTotals | crm/tasks.py:42-44 | two order lists whose contributions agree place by place have the same revenue |

## Left out

- GraphQL client setup, `client.execute` and the transport: these are network I/O. The response is a parameter.
- Writing to the log files and printing: the entries are returned as (order id, email) pairs. The timestamp and the exact text of a log line (`isoformat`, `strftime`) are not modelled.
- `datetime.now()`: the job's day is the parameter `today`, already a date in local time.
- `crm/cron.py` and the schema modules: a heartbeat append and constant greeting strings, with no logic to model.
- Celery scheduling (`@shared_task`).
- How the filter library turns lookups into SQL, the store's ordering, and pagination. The filters work on in-memory sequences in a given order.
- Model validation and mutations (email uniqueness, phone format, order totals): these are not part of this model.
- Filters.IContainsLookup: case folding is ASCII only, as SQLite's `LIKE` does it. A backend with Unicode-aware `UPPER` folds more characters.
- Filters.StartsWithLookup: modelled as the case-sensitive prefix test the lookup names. On SQLite, `LIKE` would also ignore ASCII case here.
- Stock arguments of the product filter are integers. A fractional stock argument, which the store truncates, is not modelled.
- Timestamps are points on one time line. Time-zone handling of the datetime arguments is not modelled.
- Dates.ParseIsoDateTime: accepts only forms that every Python 3.7+ `fromisoformat` accepts: `YYYY-MM-DD`, `T`, a time `HH[:MM[:SS[.fff|.ffffff]]]` and an optional `±HH:MM` offset of less than a day (as `timezone()` bounds it; the minutes alone are not bounded). It rejects some forms that Python 3.7 already accepts: a separator other than `T` and offsets with seconds or fractions. It also rejects forms that only Python 3.11 added: week dates, the basic format, and fractions of other lengths.
- Dates.ParseYmd: digits are ASCII digits. `strptime` would also accept other Unicode decimal digits.
- Order records of the reminder job: `orderDate`, `id` and `email` are strings or missing/null. An element of `allOrders` that is not an object is not modelled.
- Order rows of the report: a total is an exact number or missing/null. The `float(...)` conversion of the API's decimal text, and rounding and formatting of the sum, are not modelled. Neither is an element of `allOrders` that is not an object.
