# Uptime monitor — a verified model of `main.py`

`main.py` reads a list of HTTP endpoints from a YAML file. Every 15 seconds it
probes each endpoint once. It counts the UP and DOWN results per *domain*: the
last two labels of the URL's hostname. It prints a table of each domain's
cumulative availability and appends the same figures as a row of a CSV report.

This project models the deterministic core of that program in Dafny:

- `pystr.dfy` (module `PyStr`): Python's `str.split(sep)` and `sep.join(pieces)`.
- `domains.dfy` (module `Domains`): `extract_domains`.
  - The hostname and domain expression.
  - The URL-to-domain map.
  - `sorted(set)`, through a lexicographic order.
- `probe.dfy` (module `Probe`): the classification of a probe's outcome in `check_health`.
- `stats.dfy` (module `Stats`): the `domain_stats` counters.
  - One iteration's update of the counters.
  - The counters after any number of iterations.
  - Python's round-half-to-even `round(100 * UP / TOTAL)`, in exact integers.
- `cadence.dfy` (module `Cadence`): the wait time of each iteration and the wake-up schedule it produces. Time is in milliseconds.
- `report.dfy` (module `Report`): the lines of the printed table and the fields of a CSV row.
- `monitor.dfy` (module `Monitoring`): the state of `monitor_endpoints`, as the class `Monitor`.
  - The constructor builds the state from the configuration.
  - `Iterate` is one pass of the main loop.
  - `Table` and `CsvRow` produce an iteration's output.
  - Its invariant `Valid` ties the counters to the history of all results so far.
- `wrappers.dfy`: the `Option` type.

A configuration is the sequence of its endpoints' `url` values. A probe is an
`Outcome`: an HTTP status, a timeout, or any other request failure.

## Model

| member | source | states |
|---|---|---|
| Probe.Classify | main.py:35-42 | UP exactly when the outcome is a status in [200, 300). DOWN exactly for any other status, a timeout or a request failure. |
| PyStr.SplitFirst | main.py:115 | `s.split(sep)[0]` is a prefix of `s`. It is either all of `s` (no cut) or followed in `s` by `sep`. |
| PyStr.SplitLast | main.py:115 | `s.split(sep)[-1]` is a suffix of `s`. It is either all of `s` (no cut) or preceded in `s` by `sep`. |
| PyStr.JoinSplit | main.py:115-117 | `sep.join(s.split(sep)) == s` for every string and non-empty separator. |
| PyStr.SplitPiecesFree | main.py:115 | No piece of `s.split(sep)` contains `sep`. So the piece after the last cut of the left-to-right scan for non-overlapping `//` holds no `//`. |
| PyStr.SplitAbsent | main.py:115 | A string without `sep` splits into itself alone. |
| PyStr.SplitAfterPiece | main.py:115 | Splitting cuts at the left-most separator. When no separator starts inside `p`, including one that reaches into the `sep` after it, `(p + sep + t).split(sep)` is `[p]` followed by `t.split(sep)`. |
| PyStr.SplitJoin | main.py:117 | Splitting at `c` the join with `c` of pieces free of `c` gives the pieces back. |
| PyStr.OccursChar | main.py:115 | A one-character separator occurs in `s` exactly when the character is in `s`. |
| Domains.AfterSchemeShape | main.py:115 | `AfterScheme(url)`, which models `url.split("//")[-1]`, is a suffix of the URL. It contains no `//`. It is the whole URL, or preceded in it by `//`. |
| Domains.AfterSchemeWhole | main.py:115 | A URL with no `//` is kept whole. |
| Domains.AfterSchemeCut | main.py:115 | The first cut is at the left-most `//`: when `p + "/"` holds no `//`, the text kept from `p + "//" + t` is the text kept from `t`. With `AfterSchemeWhole` this fixes the result on every URL. |
| Domains.AfterSchemeTripleSlash | main.py:115 | A run of three slashes is cut at its first two: `"a///b"` keeps `"/b"`. |
| Domains.AfterSchemeSecondCut | main.py:115 | A `//` in the path cuts again: `"http://a.com//x"` keeps `"x"`. |
| Domains.CutAtFirstShape | main.py:115 | `s.split(c)[0]` is the prefix of `s` up to the first `c`. It does not contain `c`. It is all of `s`, or followed in `s` by `c`. |
| Domains.HostnameShape | main.py:115 | The hostname (`Hostname`) contains no `/` and no `:`. It is a prefix of the text after the last cut of the left-to-right scan for non-overlapping `//`. It is all of that text, or the character right after it there is `/` or `:`. |
| Domains.LastTwoShape | main.py:117 | `labels[-2:]` holds min(2, number of labels) labels. They are the last labels. |
| Domains.DomainOfShape | main.py:115-117 | The domain (`DomainOf`) splits at `.` into the last two (or fewer) labels of the hostname. It is a suffix of the hostname with at most one `.`. It has a `.` iff the hostname has one. It is the whole hostname when the hostname has no `.`. It contains no `/` and no `:`. |
| Domains.DomainShape | main.py:117 | `Join(LastTwo(labels), ".")`, which is `".".join(labels[-2:])`, of a hostname's labels splits back into those labels. It is a suffix of the hostname with at most one `.`. |
| Domains.LabelsDotFree | main.py:117 | No label of `hostname.split(".")` contains a `.`. |
| Domains.DomainOfDomain | main.py:115-117 | `DomainOf` of a domain gives it back: the extraction is idempotent. |
| Domains.LessIrreflexive | main.py:123 | The order `sorted` uses on strings is irreflexive. |
| Domains.LessTransitive | main.py:123 | That order is transitive. |
| Domains.LessTotal | main.py:123 | That order relates any two distinct strings. |
| Domains.AscendingDistinct | main.py:121-123 | A strictly ascending list has no duplicates. |
| Domains.AscendingUnique | main.py:123 | Two strictly ascending lists with the same members are equal, so `sorted(domains_set)` is determined by the set. |
| Domains.Least | main.py:123 | Returns a member of a non-empty set that precedes every other member. |
| Domains.SortedList | main.py:123 | `sorted(s)` is strictly ascending and has exactly the members of `s`. |
| Domains.MapDomains | main.py:110-121 | The loop maps exactly the configuration's URLs, each to its domain. `domains_set` is exactly the set of mapped values. |
| Domains.MappedValues | main.py:119-121 | The values of such a map are exactly the domains of the configuration's URLs. |
| Domains.ExtractDomains | main.py:108-125 | Every URL maps to its domain. The list is strictly ascending with exactly the mapped values. Every URL's domain is in the list. |
| Domains.ExtractionUnique | main.py:108-125 | The map and the list are fully determined by the configuration. |
| Stats.Record | main.py:87-89 | One endpoint's result adds one to its domain's TOTAL and to the matching UP or DOWN bucket. The domain gets a key if it had none (the defaultdict). Every other domain is unchanged. |
| Stats.CountsPartition | main.py:85-89 | For a domain, UP results plus DOWN results equal its number of endpoints. |
| Stats.OccurrencesPositive | main.py:85-87 | A domain has endpoints iff it is one of the endpoints' domains. |
| Stats.CountAbsent | main.py:85-89 | A result no endpoint of the domain returned counts zero for it. |
| Stats.TallyCounts | main.py:85-89 | After one iteration (`Tally`), UP, DOWN and TOTAL have grown by the domain's UP results, DOWN results and number of endpoints. |
| Stats.TallyKeys | main.py:85-89 | After an iteration the stored domains are the earlier ones plus the endpoints' domains. |
| Stats.TallyGrows | main.py:85-89 | Counters never decrease. TOTAL grows exactly for the domains of the configuration. |
| Stats.TallyBalanced | main.py:85-89 | An iteration preserves UP + DOWN == TOTAL. |
| Stats.ReplayCounts | main.py:85-89 | After k iterations (`Replay`), UP and DOWN are the UP and DOWN results over all iterations. TOTAL is k times the domain's number of configuration entries. |
| Stats.ReplayKeys | main.py:85-89 | After k > 0 iterations, the stored domains are exactly the endpoints' domains. Before the first iteration there are none. |
| Stats.ReplayBalanced | main.py:85-89 | UP + DOWN == TOTAL after any number of iterations. |
| Stats.CountAllAbsent | main.py:85-89 | A result that no probe of the domain ever returned has a count of zero. |
| Stats.RoundHalfEven | main.py:93 | The result is the nearest integer to q / n, with ties to the even one (Python's `round`). |
| Stats.RoundsToUnique | main.py:93 | That rounded value is unique. |
| Stats.RoundsToAtMost | main.py:93 | A rounded quotient of q <= bound * n is at most bound. |
| Stats.RoundingTies | main.py:93 | Examples: 12.5% rounds to 12 and 37.5% to 38. |
| Stats.AvailabilityBounds | main.py:92-94 | `Availability`, which is `RoundHalfEven(100 * UP, TOTAL)`, is between 0 and 100. It is 100 when every probe was UP and 0 when none was. |
| Stats.AvailabilityExtremes | main.py:85-94 | After k > 0 iterations: a domain whose every probe was UP shows 100, and one whose every probe was DOWN shows 0. |
| Cadence.WaitTime | main.py:97-100 | The sleep is never negative. It never wakes the loop before slot `15*iteration + start`. It is zero or ends exactly at that slot. |
| Cadence.WaitTimeLeast | main.py:98-100 | No shorter sleep reaches the slot. |
| Cadence.Wakes | main.py:69-100 | There is one wake-up per iteration. Each is at or after its slot. |
| Cadence.WakesPrefix | main.py:69-100 | The first k wake-ups depend only on the first k iterations' work. |
| Cadence.WakeStep | main.py:97-100 | Each wake-up is the previous one plus the iteration's work plus its wait time. |
| Cadence.WakesMonotone | main.py:97-100 | A wake-up comes at least the iteration's work after the previous one. |
| Cadence.LatenessShrinks | main.py:97-100 | An iteration whose work fits in 15 s does not increase the lateness. |
| Cadence.NoDrift | main.py:69-100 | When every iteration's work fits in 15 s, iteration k wakes exactly at `start + 15*k`. |
| Report.Repeat | main.py:135 | Python's `c * n`: max(n, 0) copies of `c`, empty for n <= 0. |
| Report.NatToString | main.py:145 | `str(n)` is a non-empty string of decimal digits without a leading zero. |
| Report.DecimalRoundTrip | main.py:145-147 | Reading the printed digits back gives the number. |
| Report.ShortNumber | main.py:145 | An availability from 0 to 100 prints in 1 to 3 digits, and 3 only for 100. |
| Report.LongestIsMax | main.py:57 | `max(len(d) for d in domains)` is at least every domain's length and equals one of them. It is missing (Python raises) exactly for no domains. |
| Report.CellShape | main.py:144 | A domain cell (`Cell`) is `size_longest_domain` characters: the domain, then spaces. |
| Report.HeaderShape | main.py:135-136 | The header's (`Header`) bar is at column max(size, 6) + 1. Its length is max(size, 6) + 15. |
| Report.DividerShape | main.py:139 | The divider's (`Divider`) bar is at column size + 1. Its length is size + 15. |
| Report.RowShape | main.py:142-147 | A row (`Row`) is size + 15 long with its bar at column size + 1. It starts with the domain padded with spaces to column size. It ends with the availability right-aligned in three characters, then `%`. Every other character is a space. |
| Report.BarShape | main.py:145-147 | What follows the cell is 15 characters: a space, the bar, spaces, the right-aligned availability and `%`. |
| Report.HeaderMisaligned | main.py:135-139 | As written, with a longest domain under 6 characters, the header's bar is not in the divider's column. |
| Report.ShortDomainExample | main.py:135-147 | As written, for the single domain `t.co` the row's bar is at column 5 and the header's at column 7. |
| Report.TableAsWritten | main.py:135-147 | The table (`Table`) has the header, the divider and one row per domain. For a longest domain of at least 6 characters it equals the lines the program prints. |
| Report.TableAligned | main.py:135-147 | Every line of `Table` has the same length and its bar in the same column. Each row starts with its domain and ends with `%`. |
| Report.TableLine | main.py:135-147 | Those facts for one line of the table. |
| Report.PercentRoundTrip | main.py:166 | Reading back the field `'{}%'.format(a)` gives `a`, including `None`. |
| Report.CsvRow | main.py:163-166 | The row has 2 + the number of domains fields: the iteration, the time, then each domain's field in header order. That field is exactly `'{}%'.format(a)` (`Percent`) of the domain's availability `a`, and it reads back as `a`. |
| Monitoring.KeysAreDomains | main.py:85-87 | The endpoints' domains are exactly the sorted domains. |
| Monitoring.Classified | main.py:78-82 | One result per endpoint, in endpoint order. Endpoint i is UP exactly when its probe got a status in [200, 300), and DOWN exactly otherwise. |
| Monitoring.InitConsistent | main.py:47-59 | The state before the first iteration satisfies the loop invariant. |
| Monitoring.StepCounters | main.py:85-89 | After an iteration, the stored domains are exactly the sorted domains, each with a positive TOTAL. |
| Monitoring.RecomputedEntries | main.py:92-94 | After the recomputation (`Recomputed`), the entries are the old ones plus the stored domains. Each stored domain holds its counters' percentage, which is at most 100. Every other entry is unchanged. |
| Monitoring.StepConsistent | main.py:84-94 | One iteration (count, then recompute availabilities) preserves the loop invariant, with one more iteration in the history. |
| Monitoring.StepTotals | main.py:85-89 | The counters after one more iteration are the old ones updated by that iteration's results. |
| Monitoring.CountersAfter | main.py:85-89 | In every reachable state UP + DOWN == TOTAL. A domain's TOTAL is the iteration number times its number of configuration entries. |
| Monitoring.ReportReady | main.py:92-94 | After the first iteration, every sorted domain has an availability. It is that of its counters and lies in [0, 100]. |
| Monitoring.TableReady | main.py:103 | After the first iteration, the table of the state is aligned. |
| Monitoring.InitFacts | main.py:56-58 | For a non-empty configuration: every URL is mapped and the domain list is non-empty. The initial state satisfies the loop invariant. |
| Monitoring.Setup | main.py:46-59 | Extracts the domains, computes the longest domain and the unset availabilities, and establishes the loop invariant. |
| Monitoring.Monitor.constructor | main.py:45-59 | The initial state satisfies the invariant, with no iteration, no counters and the domain extraction of the configuration. Every slot of `response_codes` starts as `None` (main.py:53). |
| Monitoring.Monitor.Collect | main.py:76-82 | Endpoint i's result is stored in slot i. |
| Monitoring.Monitor.CountResults | main.py:85-89 | The counters become the old counters updated by every endpoint's result. |
| Monitoring.Monitor.ComputeAvailabilities | main.py:92-94 | The availabilities become those recomputed from the current counters (`Recomputed`): each stored domain gets `round(100 * UP / TOTAL)`, other entries are kept. |
| Monitoring.Monitor.Iterate | main.py:69-94 | One iteration keeps the invariant: the counters are those of all iterations so far and the availabilities match them. It adds exactly this iteration's results. `response_codes` is left holding this iteration's result of every endpoint (main.py:82). |
| Monitoring.Monitor.Table | main.py:128-147 | The table of the current state, every line with its bar in the same column. |
| Monitoring.Monitor.CsvRow | main.py:163-166 | The CSV row of the current state: the iteration, the time, and for each sorted domain exactly the text `'{}%'.format(a)` of its counters' availability `a`, which reads back as `a`. |

## Left out

- The HTTP request `requests.request` (main.py:34) is a network call. Its outcome is an input `Outcome`. The endpoint's `method`, `headers` and `body` (main.py:28-30) are passed to that request, so a configuration entry is reduced to its `url`.
- The `ThreadPoolExecutor` fan-out (main.py:76-82) is concurrency. `Collect` stores the results in slot order, which is what the futures loop guarantees. `min(1000, n)` only sizes the thread pool.
- YAML loading (main.py:20-22), the CSV file's creation, name and appending (main.py:153-169), `print`, `sys.argv` and `KeyboardInterrupt` (main.py:172-181) are I/O. The printed lines of the table and the fields of a CSV row are modelled; the CSV writer's quoting is not.
- Probe.Outcome: has no case for an exception that `check_health` does not catch. main.py:39-42 catches only `Timeout` and `RequestException`. Anything else `requests.request` raises stops the program: for example a `TypeError` from a `body` that cannot be encoded as JSON, or a bad `method`. `future.result()` (main.py:81) re-raises it, and only `KeyboardInterrupt` is caught (main.py:180). The model covers only runs in which every probe returns or fails with one of the two caught exceptions.
- Cadence.Wakes: takes `time.sleep` (main.py:100) to return exactly at the end it asks for. A sleep that returns late is charged to the next iteration's `busy`, so `NoDrift`'s hypothesis that work fits in 15 s includes that overrun. The model does not separate the sleep's overrun from the work.
- Clocks and sleeping (`time.time`, `time.sleep`, `datetime.now`, `isoformat`, `ctime`) are external. The monitoring time is a string parameter of `CsvRow`. The work of each iteration is a duration in `Cadence.Wakes`. Time is in whole milliseconds instead of float seconds.
- The three printed lines before the table (main.py:130-132) and the trailing separator (main.py:150) are not modelled. They hold only the iteration and clock readings.
- The endless `while True` (main.py:69) is modelled as one `Iterate` step. The counters over any number of steps are `Stats.Replay`.
- Stats.Availability: computes `round(100 * UP / TOTAL)` exactly. Python computes the quotient as a float first. That is exact at the .5 ties that decide the rounding, but it can differ for totals far beyond any realistic run.
- Monitoring.Monitor.constructor: requires a non-empty configuration, because `max` of an empty list raises at main.py:57. `Report.Longest` returns `None` in that case.
- Monitoring.Monitor.Table: prints the table with its first column `max(size_longest_domain, 6)` wide, so the header lines up (see Findings). For a longest domain of at least six characters this is exactly the printed table (`Report.TableAsWritten`).
- PyStr.SplitLast: states where the last piece sits, not which cut produced it. For `"a///b"` both `"b"` and `"/b"` meet its clauses. The left-most cut is stated by `PyStr.SplitAfterPiece`.
- Domains.AfterSchemeShape: states the shape of the kept text, not which `//` was cut. That is fixed by `Domains.AfterSchemeCut` with `Domains.AfterSchemeWhole`.
- Domains.SortedList: `sorted` compares strings character by character by code point, as Dafny's `char` order does. Python's own Timsort procedure is not modelled, only its result.

## Findings

| source | as written | input that shows it | evidently intended | confidence | as-written member | corrected member |
|---|---|---|---|---|---|---|
| main.py:135-139 | The header pads `Domain` to `size_longest_domain` only when that exceeds 6. The divider and the rows always put the bar at column `size_longest_domain + 1`. | A configuration whose only URL is `https://t.co` (longest domain of 4 characters): the row's bar is at column 5, the header's at column 7. | Every line of the table has its bar in the same column. | medium, not executed | Report.HeaderMisaligned, Report.ShortDomainExample | Report.Table, Report.TableAligned |
