# 42 active-users dashboard: a Dafny model of its data path

The dashboard shows which students of a 42 campus are active. It:

- reads the campus directory from the 42 intranet API, page by page;
- groups the campuses by country for the sidebar selectors and statistics;
- fetches the users who are physically on a campus (`location` set) and
  enriches the first fifty of them with their full profile;
- has a second strategy, still in the code: walk five user endpoints page
  by page, keep the recently active users of the campus, and merge them
  without duplicate ids;
- flattens every user record into a table row (42cursus level, campus name);
- keeps the rows of the chosen time window, newest first;
- filters the table by search text, minimum level and status, and lays out
  its columns;
- derives the metrics and the charts: activity per hour, the top ten by
  level, the level histogram.

The network is modelled as a finite sequence of recorded replies, one per
HTTP call in call order. A reply is one of:

- `Ok(body)`: status 200 with a decoded body;
- `TooMany(retryAfter)`: status 429 with its `Retry-After` header, which is
  absent, an integer, or text that `int()` rejects (the HTTP-date form);
- `Forbidden`: status 403;
- `OtherStatus`: any status other than 200, 403 and 429;
- `Failed`: the request raised an exception.

A call past the end of the sequence behaves like `Failed`. The fetch
methods return the requests they issued, as (endpoint, page) pairs, so that
the paging discipline can be stated.

The modules follow the program:

| module | file | source |
|---|---|---|
| `Settings`, `Records` | records.dfy | constants of config/settings.py, the JSON records |
| `Seqs` | seqs.dfy | Python/pandas sequence primitives: selection, `[:n]`, stable descending sort |
| `CampusApi` | campus.dfy | api/campus.py |
| `Users` | users.dfy | api/users.py |
| `Flatten` | flatten.dfy | the record flattening and the time window of app.py |
| `Sidebar` | sidebar.dfy | campus grouping, selectors and statistics of ui/sidebar.py |
| `UserTable` | user_table.dfy | ui/user_table.py |
| `Charts` | charts.dfy | ui/charts.py |

The loops of the source become methods with loop invariants. Each method is
proved equal to a function of its inputs: its result, and for the fetchers
also its request log. `FetchEndpoint`'s log equals `EndpointLog`, the page
loop's stop rule written as a recursive function. `UsersByActivity`'s log
equals `ActivityLog`, the five endpoints run through that stop rule until
`max_users` users are merged. The lemmas state the functions' properties.

## Model

| member | source | states |
|---|---|---|
| CampusApi.FetchCampus | api/campus.py:10-42 | The page loop returns exactly what `get_campus` returns. It asks for pages 1, 2, 3, … in order, and issues exactly as many requests as the loop's run takes. |
| CampusApi.CampusRun | api/campus.py:15-42 | Defines the page loop from a given page on as a value: the rows collected, the requests issued, and whether an exception ended it. Its properties are the `CampusRun*` lemmas. |
| CampusApi.GetCampus | api/campus.py:10-66 | Defines `get_campus`: the collected rows, or nothing when an exception ended the loop. `GetCampusSpec` states its properties. |
| CampusApi.CampusRunRequests | api/campus.py:15-42 | From page p on, the loop issues at most 21 - p requests. It issues none only when p is beyond the 20-page cap. |
| CampusApi.CampusRunBodies | api/campus.py:23-38 | The campuses collected are the bodies of the successful replies, concatenated in page order. |
| CampusApi.CampusRunStops | api/campus.py:26-42 | Every request before the last was answered by a full page of 100. The run ended by an exception exactly when the last reply was an exception. |
| CampusApi.CampusRunLast | api/campus.py:26-38 | A run ends on a reply that is not a full page, or after the full page 20. |
| CampusApi.GetCampusSpec | api/campus.py:10-66 | `get_campus` issues between 1 and 20 requests. Every page but the last was full, and the last was not full unless it was page 20. Without an exception the result is the concatenation of the 200 bodies; a non-200 status keeps what was collected. An exception yields the empty list. |
| CampusApi.TwoPages | api/campus.py:29-38 | A full page of 100 followed by a page of 40 gives 140 campuses from two requests. |
| CampusApi.PageNext | api/campus.py:29-38 | A full page extends the collected list by its body and moves the loop to the next page, and the loop invariant still holds. |
| CampusApi.PageStop | api/campus.py:23-42 | Any reply other than a full page ends the run. A 200 body is kept, and the run counts as failed exactly when that reply was an exception. |
| Users.ListedIds | api/users.py:122-124 | Collecting the ids of a campus list skips null entries, so it never yields more ids than entries. |
| Users.ListedIdsMembers | api/users.py:122-124 | An id is listed iff some non-null element of the campus list carries it. |
| Users.CampusMatch | api/users.py:119-128 | Defines the campus re-check: the id is listed by the campus list, or the campus object carries it; anything else matches nothing. |
| Users.KeepRecent | api/users.py:99-131 | Defines the rows of one page that pass the window and campus re-check, tagged, in page order. `KeepRecentSpec` states its properties. |
| Users.KeepRecentSpec | api/users.py:99-131 | Every kept user has an activity date inside the window and belongs to the campus. Every recent user of the campus is kept, tagged `location_active = False`. Filtering never adds users. |
| Users.FilterPage | api/users.py:99-131 | The per-page loop computes exactly that filter. |
| Users.HarvestRange | api/users.py:77-142 | Defines the kept rows of a range of calls, in call order. `HarvestSplit` and `HarvestPasses` state its properties. |
| Users.HarvestSplit | api/users.py:77-142 | The users kept over a range of calls are the users kept over any split of it, concatenated. |
| Users.HarvestPasses | api/users.py:99-133 | Every user gathered from any range of calls passes the activity and campus filter. |
| Users.MaxPagesFor | api/users.py:74 | `min(10, max_users // 100 + 1)` never exceeds 10. It is at least 1 for a non-negative `max_users` and exactly 10 from 900 users on. |
| Users.RetryDelay | api/users.py:21-30 | Defines the wait of `handle_rate_limit`: `int(Retry-After)` seconds, 2 without the header, and none when `int()` or `time.sleep` raises. `RateLimitRule` states what each case does to the page loop. |
| Users.FetchEndpoint | api/users.py:73-160 | The endpoint loop consumes one reply per request and gathers exactly the filtered users of those replies. Pages start at 1. A handled 429 repeats the same page; anything else advances it. The loop goes on only after a handled 429 or a full page, and never ends on a handled 429. After a full last page it stopped only at the page cap or the user cap. Every request is made while fewer than `max_users` users were gathered. It issues no request iff `max_pages < 1` or `max_users <= 0`. The log equals `EndpointLog`. |
| Users.EndpointLog | api/users.py:73-160 | Defines the calls the page loop makes: it calls while `page <= max_pages` and fewer than `max_users` rows were gathered, repeats the page after a handled 429, moves on after a full page, and stops after anything else. |
| Users.EndpointLogOf | api/users.py:77-160 | A run that ends the way the page loop ends made exactly the calls `EndpointLog` prescribes. |
| Users.RateLimitRule | api/users.py:85-160 | Before the caps, a 429 whose Retry-After gives a wait is followed by a request for the same page with nothing gathered. A 429 whose header is unusable raises, and the endpoint makes no further call. |
| Users.TooManyRun | api/users.py:87-89 | When every remaining reply is 429, the loop retries page 1 until the supply of replies runs out and gathers nothing. The source's retry loop has no bound of its own. |
| Users.LogCall | api/users.py:77-142 | One more request keeps the loop invariant: the call is logged, its filtered users are added, and its page follows from the previous reply. |
| Users.Merged | api/users.py:162-167 | Defines the merge: each incoming user is appended when its id is truthy and not yet present. The `Merged*` lemmas state its properties. |
| Users.MergedKeeps | api/users.py:162-167 | Merging only appends, and keeps ids unique and truthy. Every merged user comes from the previous list or from the incoming one. |
| Users.MergedCovers | api/users.py:162-167 | After the merge, every previous id and every truthy incoming id is present. |
| Users.MergedFirstWins | api/users.py:162-167 | The first occurrence of a new truthy id is the record that is kept. |
| Users.MergedOrder | api/users.py:162-167 | The appended users appear in their incoming order. |
| Users.MergedAppend | api/users.py:162-167 | Merging two batches one after the other is merging their concatenation. |
| Users.MergeUnique | api/users.py:163-167 | The duplicate-skipping loop computes that merge. |
| Users.MergeStep | api/users.py:67-172 | Merging one endpoint's users into the merge of all previous endpoints gives the merge of all calls so far. |
| Users.ActivityLog | api/users.py:67-172 | Defines the calls of the endpoint loop: endpoints in order while fewer than `max_users` users are merged, each making the calls `EndpointLog` prescribes. |
| Users.UsersByActivity | api/users.py:32-174 | The log equals `ActivityLog`: the five endpoints in order, each running the page-loop stop rule from page 1, and a further endpoint only while fewer than `max_users` users are merged. The result is the first-seen deduplication of every kept user, cut to `max_users`: unique truthy ids, all in the window and on the campus. A handled 429 retries the same page of the same endpoint. |
| Users.TryEndpoint | api/users.py:67-172 | One round of the endpoint loop keeps the loop invariant: the log follows `ActivityLog` and the merge is that of every kept row so far. |
| Users.ActivityOutcome | api/users.py:67-174 | When the endpoint loop stops, its log is all of `ActivityLog`, and the cut merge has the promised properties. |
| Users.ActivityResult | api/users.py:162-174 | The slice `users[:max_users]` of the merge has at most `max_users` users, unique truthy ids, and only users that pass the filter. |
| Users.LogSteps | api/users.py:67-172 | Appending one endpoint's requests preserves the endpoint order, the fresh start at page 1, the retry discipline and the user cap. |
| Users.PresentUsers | api/users.py:194-206 | Defines the on-site users of one reply, marked, in reply order. `PresentUsersSpec` states its properties. |
| Users.PresentUsersSpec | api/users.py:194-206 | The users on campus are those whose `location` is set, not "unavailable" and not blank under Python's `str.strip()` whitespace set, in reply order, each marked. |
| Users.PresentUsersMarked | api/users.py:197-201 | Every user found on campus has a non-blank location, `location_active` true and `last_location` equal to `updated_at`. |
| Users.UsersByLocation | api/users.py:176-226 | A 200 reply gives its users on campus. A non-200 status or an exception gives the empty list. |
| Users.UserDetails | api/users.py:9-19 | Defines `get_user_details` followed by `if detailed_user:`: the body of a 200 reply when it is truthy. `ActiveUsersPresent` states its properties. |
| Users.Enhance | api/users.py:253-266 | Defines the entry of the enrichment pass for one position. `ActiveUsersPresent` states its properties. |
| Users.ActiveUsers | api/users.py:228-277 | The result has one entry per user of `location_users[:max_users]`, in order. Exactly `min(50, n)` detail requests are made, and each entry is the enriched record for its position. |
| Users.ActiveUsersPresent | api/users.py:251-266 | Every returned user has `location_active` true. Past position 50, when the detail request fails, or when its body is falsy, the basic record is kept unchanged. Otherwise the detailed record is kept with the basic record's `last_location`. |
| Flatten.ResolveLevel | app.py:4-20 | The cursus loop with its for-else computes the level resolution. |
| Flatten.LevelOf | app.py:5-20 | Defines the level resolution: an empty cursus list leaves the level unset; otherwise the first 42cursus entry, a raise on a null entry or a null `cursus` met first, or the maximum level. |
| Flatten.SearchPrimary | app.py:8-20 | Defines the cursus search from one entry on, with the for-else fall-through to the maximum. |
| Flatten.FirstPrimaryWins | app.py:8-12 | The level is that of the first 42cursus entry, matched by name or by slug, when no entry before it raises. |
| Flatten.NoPrimaryMax | app.py:13-20 | Without a 42cursus entry, and with every entry and its `cursus` an object, the level is the maximum level, never below 0 and at least every entry's level. |
| Flatten.MaxLevelSpec | app.py:15-19 | The running maximum starting at 0 is an upper bound of every level, and it is 0 or one of the levels. |
| Flatten.LevelRaises | app.py:8-10 | Flattening a record raises exactly when a null entry, or an entry with a null `cursus`, is reached before any 42cursus entry. |
| Flatten.CampusName | app.py:22-27 | The campus name comes from the first list element or from the dict: "N/A" when the key is absent, `None` when it is JSON null. A null first element raises, and an empty list or another type leaves the field unset. |
| Flatten.FlattenRecord | app.py:4-32 | Defines the row of one record, or nothing when the level or campus code raises. |
| Flatten.Flattened | app.py:4-32 | Defines the rows of `df_data` in record order. `FlattenedAppend` and `FlattenedOne` state its properties. |
| Flatten.FlattenAll | app.py:4-32 | The record loop keeps one row per record that does not raise, in order. |
| Flatten.FlattenedAppend | app.py:29-32 | Flattening distributes over concatenation, and never yields more rows than records. |
| Flatten.FlattenedOne | app.py:29-32 | A single record yields its row, or nothing when it raises. |
| Flatten.WindowMembers | app.py:54-69 | After date parsing, the window filter and the sort, the table holds exactly the rows with a date no older than `past_date`, as a permutation of the windowed rows. |
| Flatten.WindowSorted | app.py:54-69 | Defines the table after `dropna`, the window mask and the newest-first sort. `WindowMembers` and `WindowOrder` state its properties. |
| Flatten.WindowOrder | app.py:57-69 | The rows are newest first, all inside the window, and rows with equal timestamps keep their order. |
| UserTable.FilterRowsKeep | ui/user_table.py:71-82 | The three conditional mask selections are one selection by "passes every active filter". |
| UserTable.FilterRows | ui/user_table.py:71-82 | Defines the three successive mask selections, each applied only when its widget is set. |
| UserTable.FilterRowsSpec | ui/user_table.py:71-82 | The filtered table is a subsequence of the table, so "showing X of Y" has X <= Y. A row is kept iff it passes every active filter, and with no filter set the table is shown whole. |
| UserTable.LowerStr | ui/user_table.py:74-75 | Case-insensitive matching lowers every character and keeps the length. |
| UserTable.InsertBeforeLast | ui/user_table.py:90 | `list.insert(-1, x)` puts `x` just before the last element and keeps the rest in place. |
| UserTable.DisplayColumns | ui/user_table.py:85-92 | The columns are Login, Nombre, Estado and Nivel, then Wallet and Evaluation Points when present, with "Última conexión" always last. |
| UserTable.InCampusCount | ui/user_table.py:43-44 | The "En campus" metric never exceeds the row count. |
| UserTable.InCampusCountSpec | ui/user_table.py:43-44 | The "En campus" metric is the number of rows whose status contains "En campus": each such row is counted, the count plus the non-matching rows is the row count, no matching row gives 0, and all matching gives the row count. |
| UserTable.InCampusCountExact | ui/user_table.py:43-44 | The matching rows counted and the non-matching rows left out add up to the row count, and a table without a matching row counts 0. |
| UserTable.InCampusCountPair | ui/user_table.py:43-44 | A matching row followed by a non-matching one counts 1. |
| UserTable.Logins | ui/user_table.py:27 | The login set holds exactly the logins of the rows. |
| UserTable.UniqueLoginsBound | ui/user_table.py:27 | `nunique` of Login is at most the row count, and equals it when no login repeats. |
| Sidebar.GroupByCountry | ui/sidebar.py:101-107 | The grouping loop builds the country dictionary and its key order, as `Grouped` defines them. |
| Sidebar.Grouped | ui/sidebar.py:101-107 | Defines the country dictionary and its key order after the loop has seen every campus. `GroupedSpec` states its properties. |
| Sidebar.GroupedSpec | ui/sidebar.py:101-107 | Countries are listed once each: a country is a key iff some campus has it, and the keys are ordered by the position of each country's first campus. Each maps to the non-empty list of its campuses in input order, and the groups together hold every campus once. |
| Sidebar.FirstAt | ui/sidebar.py:101-107 | The position of the first campus of a country: no earlier campus has that country, and the campus there has it, unless there is none. |
| Sidebar.GroupedFirstSeen | ui/sidebar.py:101-107 | A country is a key iff some campus has it. |
| Sidebar.GroupedOrder | ui/sidebar.py:101-107 | The keys are ordered by the position of each country's first campus. |
| Sidebar.CampusesOfMember | ui/sidebar.py:103-107 | Every campus is in the group of its own country. |
| Sidebar.CampusesOfCountry | ui/sidebar.py:103-107 | A group holds only campuses of that country. |
| Sidebar.SortAscSorted | ui/sidebar.py:113 | `sorted` on the country names yields code-point ascending order. |
| Sidebar.CountryOptions | ui/sidebar.py:113-118 | Defines the country selector: "Todos" and then the sorted keys. `CountryOptionsSpec` states its properties. |
| Sidebar.CountryOptionsSpec | ui/sidebar.py:113-118 | The country selector offers "Todos" and then every country exactly once, sorted. Every campus's country is among them. |
| Sidebar.Available | ui/sidebar.py:121-124 | Defines the campuses offered: all for "Todos", otherwise the chosen country's group. |
| Sidebar.AvailableSpec | ui/sidebar.py:121-124 | "Todos" offers every campus. A country offers exactly its campuses, all of that country. |
| Sidebar.CampusDict | ui/sidebar.py:126 | Defines the name-to-id dictionary, a later campus overwriting an earlier one of the same name. |
| Sidebar.CampusDictSpec | ui/sidebar.py:126 | Every campus name is a key, and each name maps to the id of its last campus, as a dict comprehension does. |
| Sidebar.TotalsSpec | ui/sidebar.py:185-186 | The country total is the number of distinct countries. It is at most the campus total, and at least 1 when there are campuses. |
| Sidebar.CountryCounts | ui/sidebar.py:191 | Each country is paired with the size of its group, in key order. |
| Sidebar.TopCountries | ui/sidebar.py:191-192 | Defines the top list: the counts sorted by decreasing size, stably, first five. |
| Sidebar.TopCountriesOrder | ui/sidebar.py:192 | The top list has `min(5, countries)` entries in descending count, and no omitted country has a larger count. The sort is stable, so ties keep key order, and it is a permutation of the counts. |
| Sidebar.TopCountriesCounts | ui/sidebar.py:191-196 | Every listed country exists and its count is its number of campuses. |
| Charts.HourOf | ui/charts.py:16 | The hour of a timestamp is in 0..23. |
| Charts.HourCounts | ui/charts.py:15-17 | Defines the bars of the hourly chart in ascending hour order. `HourCountsSpec` states its properties. |
| Charts.HourCountsSpec | ui/charts.py:15-17 | The hourly bars are in ascending hour order. Each bar's count is the number of rows in that hour, every hour with a row has a bar, and the bars add up to the number of timestamped rows. |
| Charts.TopRows | ui/charts.py:92-94 | Defines `nlargest(min(10, len(df)), 'Nivel')` as the first rows of the stable descending sort. |
| Charts.TopRowsSpec | ui/charts.py:92-94 | The top list has `min(10, len(df))` rows, in descending level, drawn from the table. No row left out has a higher level. |
| Charts.TopColumns | ui/charts.py:86-90 | The top table has at most four columns, and Wallet comes last when present. |
| Charts.TopColumnsSpec | ui/charts.py:86-90 | A column is shown iff it is one of Login, Nombre, Nivel or Wallet and the table has it, in that order. |
| Charts.TruncateName | ui/charts.py:105-108 | Names of at most 20 characters are kept. Longer names become their first 20 characters plus "...". |
| Charts.TruncateIdempotent | ui/charts.py:105-108 | Truncating twice is truncating once, and a shown name has at most 23 characters. |
| Charts.TopDisplay | ui/charts.py:96-108 | The displayed top list is the top list with every name truncated. |
| Charts.MaxRowLevelPositive | ui/charts.py:69 | The histogram's guard `max > 0` holds iff some row has a positive level. |
| Charts.RenderCharts | ui/charts.py:7-108 | Defines what the charts section draws, or nothing for an empty table. |
| Charts.RenderChartsSpec | ui/charts.py:7-108 | An empty table draws nothing. Otherwise the daily chart appears only for more than one day, the histogram iff some level is positive, the top list has `min(10, n)` rows, and the hourly bars count every timestamped row. |
| Seqs.SortDescSpec | app.py:69 | The descending sort is a sorted permutation of its input. |
| Seqs.SortDescStable | app.py:69 | Rows with equal keys keep their relative order. |
| Seqs.TopNSplit | ui/charts.py:93-94 | The first n of the sorted rows are sorted and drawn from the input, and none of the rest ranks above them. |
| Seqs.PySlice | api/users.py:174 | `s[:n]` is a prefix of `s`: the first `min(n, len(s))` elements for n >= 0, and all but the last -n elements (none if -n exceeds the length) for a negative n. |

## Left out

- Streamlit output is not modelled: widgets, markdown, metrics, progress bars and debug messages. This includes the debug listing in api/campus.py:44-60. Only the values they display are modelled.
- HTTP details are not modelled: URLs, headers, timeouts and JSON decoding. The replies are given as a parameter.
- The `Retry-After` sleep of `handle_rate_limit` is not modelled as time; only the wait it would take is computed (`RetryDelay`). A 429 with a usable header retries the same page. A 429 whose header is not an integer (the HTTP-date form included) or is negative raises, and the page loop's `except` ends that endpoint.
- Authentication (api/auth.py) and the one-hour cache of `get_campus` are not part of this model.
- The clock is a parameter: `now` and `past_date` are given as integers (seconds). ISO-8601 parsing is not modelled; a record's timestamp is given already parsed, or as absent when parsing fails.
- `round(level, 2)` is not modelled, nor the float formatting of levels and wallets (`:.1f`, `:.0f`). Levels are reals.
- Search text is matched literally. pandas `str.contains` treats it as a regular expression, so the model covers patterns without metacharacters.
- Case folding is ASCII only; Unicode case mapping is not modelled.
- A campus record with a null `country` is not modelled; a missing key reads "Sin País".
- A cursus entry with a null `level` is not modelled.
- A list element of a user's campus that is neither an object nor null is not modelled.
- Updates in place are modelled as values: the dicts that `get_users_by_activity` and `get_active_users` mutate are returned as updated copies. So aliasing between the returned list and the caller's records is not captured.
- ui/sidebar.py lines 1-100 and 197-226 are not part of this model: styling, the credential check and the information expander.
- The hybrid search method is not modelled; `get_active_users` always uses the location strategy.
- `DETAIL_LIMIT` is imported but unused by the source, so the literal 50 is modelled.
- The fields that app.py sets before its level and campus code are not part of this model. They are a parameter `head` of the flattening.
- The campus selectbox shows the dict's keys in insertion order. The model gives the dict as a `map`, so that order is not kept.
- Seqs.SortDesc: pandas `sort_values` and `nlargest` do not promise a stable order among equal keys. The model fixes one admissible order, the stable one, and proves its properties for that order.
- The daily activity chart and the level histogram are reduced to whether they are drawn; their bucket counts are not modelled.
