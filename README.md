# RepoRadar transfer pipeline — a Dafny model

RepoRadar watches GitHub repositories for changes of ownership. It has three parts:

- The **GitHub tracker** polls the GitHub REST API. It does so while keeping within the
  rate limit (`X-RateLimit-Remaining` / `X-RateLimit-Reset`). It lists an organization's
  repositories page by page. It applies a heuristic that says a repository was transferred
  when the owner in its full name `owner/name` differs, ignoring case, from the owner GitHub
  reports now.
- The **store** is a SQLite table `repo_transfers` with a uniqueness constraint on
  `(repo, old_owner, new_owner, date)`. Rows are written with `INSERT OR IGNORE`. The store
  answers "newest transfers" and "statistics" queries.
- The **Slack notifier** decides which transfers deserve an alert: enough stars, or a new
  owner that matches a target buyer. It formats the single-transfer and batch messages and
  posts them to a webhook.

The model is split into these modules:

- `Wrappers` (`wrappers.dfy`): `Option`.
- `Text` (`text.dfy`): the Python string operations the core relies on. These are
  ASCII `lower()`, substring `in`, `split('/')`, `str(int)` and the thousands separator
  of `f"{n:,}"`.
- `Seqs` (`seqs.dfy`): list comprehensions with a condition, the concatenation of the
  pieces of a message (built with f-strings and `+=`), and the SQL aggregates
  `COUNT(DISTINCT …)`, `GROUP BY` and `ORDER BY … DESC`.
- `Transfers` (`transfers.dfy`): the transfer record the tracker produces and the notifier consumes.
- `Database` (`database.dfy`): the table as a sequence of rows.
  - `INSERT OR IGNORE` is a function.
  - `RepoRadarDB` is a class whose `rows` field `AddTransfer` reassigns.
  - The two queries are functions of `rows`, specified by what SQL promises.
- `Notifier` (`notifier.dfy`): the alert policy and the message formats, as functions.
  - `SlackNotifier` is a class whose `posted` field logs every webhook post attempted.
  - The outcome of a post is a parameter `deliver`.
- `Tracker` (`tracker.dfy`): `GitHubTracker` is a class holding the rate-limit fields, a
  millisecond clock and the number of requests sent.
  - GitHub is an oracle. Its reply depends on the request and on how many requests were
    sent before it.
  - Every method is proved against a specification function (`AfterCheck`, `Request`,
    `ListFrom`, `Detect`, `CheckAll`, `CheckOrgs`). The properties of the polling loops are
    proved about those functions.

## Model

| member | source | states |
|---|---|---|
| Text.ContainsIff | slack_notifier.py:58 | `p in s` holds exactly when `p` occurs in `s` at some index |
| Text.JoinSplit | github_tracker.py:121 | splitting on `/` and joining the parts back with `/` gives the full name back |
| Text.SplitTwo | github_tracker.py:121-123 | `"A/B".split('/')` is exactly `[A, B]` when neither part holds a `/`, so the unpacking into expected owner and name succeeds |
| Text.DecimalRoundTrip | slack_notifier.py:103 | `str(n)` is digits only, has no leading zero except for 0, and reads back as `n` |
| Text.GroupedLayout | slack_notifier.py:75 | `f"{n:,}"` opens with a digit and is digits with a comma before every group of three digits counted from the right, and nowhere else |
| Text.ThousandsSepUngroups | slack_notifier.py:75 | removing the commas from `f"{x:,}"` gives `str(x)`, for negative `x` too |
| Text.ThousandsSepOneLine | slack_notifier.py:75 | a rendered star count never holds a line break |
| Seqs.FilterCounts | slack_notifier.py:91-94 | the comprehension keeps every occurrence of a transfer that passes the test and no occurrence of one that fails |
| Seqs.FilterMembers | github_tracker.py:77-84 | an element is selected exactly when it is in the input and passes the test |
| Seqs.FilterAppend | slack_notifier.py:91-94 | selecting from a concatenation is the concatenation of the selections, so the selection keeps input order |
| Seqs.CountDistinct | database.py:79-80 | `COUNT(DISTINCT col)` is the number of different values in the column |
| Seqs.DedupSpec | database.py:91 | `GROUP BY` yields every value of the column once and no other value |
| Seqs.SortDescSpec | database.py:92 | `ORDER BY count DESC` yields a permutation of its input, in non-increasing order of the key |
| Seqs.SortedPrefixIsTop | database.py:92-93 | after sorting, `LIMIT k` keeps rows whose key is at least that of every row left out |
| Database.InsertKeepsKeysUnique | database.py:32-47 | `INSERT OR IGNORE` keeps `UNIQUE(repo, old_owner, new_owner, date)`, and afterwards the table holds a row with the new key |
| Database.InsertIdempotent | database.py:44-47 | inserting a second row with a key already inserted changes nothing |
| Database.InsertOrIgnoreKeeps | database.py:44-47 | `INSERT OR IGNORE` keeps the old rows in place, adds at most the new row, and leaves its key present |
| Database.MaxStars | database.py:82 | `MAX(stars)` is NULL exactly when the table is empty; otherwise it is the largest star count, attained by some row |
| Database.RepoRadarDB.constructor | database.py:14-35 | opening the store keeps the rows already in the table, which satisfy the uniqueness constraint |
| Database.RepoRadarDB.AddTransfer | database.py:38-54 | the table becomes the old table with the row inserted-or-ignored, stamped with the current time; keys stay unique; the result is `True` |
| Database.RepoRadarDB.GetTransfers | database.py:56-69 | returns `limit` rows (all of them when the table is smaller or the limit is negative), newest first, drawn from the table without duplication, and no row left out is newer than a row returned |
| Database.RepoRadarDB.GetStats | database.py:71-97 | total rows; number of different buyers and of different sellers; `MAX(stars)`; the top-buyers query |
| Database.GroupsSpec | database.py:88-91 | the grouped lines name every buyer once, each with the number of rows naming it |
| Database.SortedGroups | database.py:88-92 | sorting the groups keeps exactly the same lines, ordered by count, and still names each owner once |
| Database.TopBuyersCounts | database.py:88-95 | `top_buyers` has at most ten lines, with different owners, each with its true positive count, most frequent first |
| Database.TopBuyersComplete | database.py:88-95 | an owner missing from `top_buyers` has no more rows than any listed owner; with fewer than ten lines no owner is missing |
| Notifier.MatchesTargetIff | slack_notifier.py:57-59 | the loop over target buyers succeeds exactly when some lower-cased target occurs in the owner |
| Notifier.ShouldAlertIff | slack_notifier.py:47-61 | a transfer qualifies exactly when its stars reach the threshold or some lower-cased target occurs in the lower-cased new owner; with no targets, only the stars decide |
| Notifier.EmptyTargetMatchesAll | slack_notifier.py:57-59 | an empty string among the targets makes every transfer qualify |
| Notifier.QualifyingStable | slack_notifier.py:91-94 | the qualifying list holds each qualifying transfer as often as the input does, none other, and selection distributes over concatenation |
| Notifier.FormatTransferMessageMentions | slack_notifier.py:63-79 | the single-transfer message contains the repository, both owners, the grouped star count and the language |
| Notifier.FormatTransferMessageFrame | slack_notifier.py:71-77 | the message opens with the headline and ends with `https://github.com/<repo>` |
| Notifier.Shown | slack_notifier.py:105 | `[:10]` keeps all transfers when there are at most ten, otherwise exactly ten |
| Notifier.ComposeBatchMessage | slack_notifier.py:103-114 | the `+=` loop builds the header, the numbered entries of the first ten and the closing line |
| Notifier.EntriesHold | slack_notifier.py:105-111 | each of the first `n` numbered entries occurs in the list of `n` entries |
| Notifier.BatchMessageShape | slack_notifier.py:103-114 | the batch message opens with the header stating the count, contains entry `k+1` for each of the first ten transfers, and ends with "...and K more transfers" exactly when there are more than ten |
| Notifier.EntryLineBreaks | slack_notifier.py:111 | an entry is exactly one line when the names in it hold no line break |
| Notifier.EntriesLines | slack_notifier.py:105-111 | `n` entries make `n` lines |
| Notifier.BatchMessageLines | slack_notifier.py:103-114 | the batch message has 2 + min(n, 10) line breaks, plus one when n > 10 |
| Notifier.HeaderLineBreaks | slack_notifier.py:103 | the header has exactly two line breaks, and ends with them: one line followed by a blank one |
| Notifier.MoreLineBreaks | slack_notifier.py:113-114 | the closing line adds exactly one line break |
| Notifier.SlackNotifier.constructor | slack_notifier.py:13-16 | notifications are enabled exactly when a webhook URL is given; nothing has been posted |
| Notifier.SlackNotifier.SendMessage | slack_notifier.py:18-45 | when disabled, returns `False` and posts nothing; otherwise posts one payload with the URL, title and message, and returns whether it was delivered |
| Notifier.SlackNotifier.SendTransferAlert | slack_notifier.py:81-87 | posts the single-transfer message under the high-value title exactly when the transfer qualifies and notifications are enabled; otherwise returns `False` and posts nothing |
| Notifier.SlackNotifier.SendBatchAlert | slack_notifier.py:89-116 | with no qualifying transfers, or when disabled, posts nothing and returns `False`; with one, posts the single-transfer alert; with more, posts the batch message under the multiple-transfers title |
| Tracker.AfterCheck | github_tracker.py:28-34 | the clock moves only when fewer than ten requests remain and the reset is ahead, and then to one second past the reset; nothing else changes |
| Tracker.Request | github_tracker.py:36-58 | a request counts as sent and follows the rate-limit check; a response overwrites both rate-limit fields (0 for a missing header); the body comes back exactly when the status is 200; a raised request leaves the fields as they were |
| Tracker.Detect | github_tracker.py:108-134 | a transfer is detected exactly when the name splits on `/` into two parts whose first differs, ignoring case, from the current owner; it then records the name, that first part as old owner, the current owner as new owner, the date, the stars (0 when absent) and the language |
| Tracker.DetectPair | github_tracker.py:121-132 | for `A/B` and current owner `C`, a transfer from `A` to `C` is detected exactly when `A` and `C` differ ignoring case |
| Tracker.DetectSkipsOtherNames | github_tracker.py:121-122 | a name without exactly one `/` is never reported |
| Tracker.SelectTransferEvents | github_tracker.py:76-86 | returns, in order, exactly the events not before `since` whose type is `TransferEvent` or `RepositoryEvent` |
| Tracker.DefaultSinceRaises | github_tracker.py:67-79 | with the default `since`, the call as written raises on every non-empty list of events, among them a transfer event of the current moment that the intended filter returns |
| Tracker.AwareSinceFilters | github_tracker.py:76-86 | with a `since` that carries a UTC offset, the loop as written returns exactly the filtered events |
| Tracker.ListFrom | github_tracker.py:88-106 | the listing sends at least one request and never turns the clock back |
| Tracker.ListFromConcat | github_tracker.py:88-106 | when page `m` is the first empty page, the listing is the concatenation in page order of the names of every page before it, and it stops after one request per page including the empty one |
| Tracker.FirstEmptyPageExists | github_tracker.py:93-98 | when every page from `bound` on is empty, the listing reaches a first empty page no later than `bound` |
| Tracker.ListFromPages | github_tracker.py:93-103 | the listing sends at most one request per page number from `page` up to page `bound`, and returns only names listed by pages before `bound` |
| Tracker.CheckOneFacts | github_tracker.py:140-164 | one iteration sends at least one request and never turns the clock back; it detects a transfer exactly when both requests about the repository are answered with status 200 and the heuristic flags the second answer; without a detection no row changes; a detection names the repository, is dated within the iteration, is what the heuristic reports from that second answer, and is inserted-or-ignored with every column it records |
| Tracker.CheckAllFinds | github_tracker.py:140-151 | when GitHub answers each repository the same way at every request, the transfers returned name exactly the repositories of the list whose answer is a 200 that the heuristic flags, in list order |
| Tracker.CheckAllOrder | github_tracker.py:136-166 | the transfers returned name repositories of the list, in list order, with some left out |
| Tracker.CheckAllDetects | github_tracker.py:136-166 | every transfer returned is what the heuristic reports from GitHub's 200 answer to one of the run's requests about its repository, and is dated within the run |
| Tracker.CheckAllDatesIncrease | github_tracker.py:129 | the transfers returned carry strictly increasing dates |
| Tracker.CheckAllStores | github_tracker.py:150-161 | the loop only appends to the table; every row it adds records a returned transfer; every returned transfer has its key in the table; unique keys stay unique |
| Tracker.CheckAllStoresEveryDetection | github_tracker.py:154-161 | when the table holds only rows dated before the run, every detection adds a row |
| Tracker.CheckAllAppend | github_tracker.py:140-166 | checking two lists one after the other is the same as checking their concatenation |
| Tracker.CheckOrgsAppend | github_tracker.py:168-178 | checking two lists of organizations one after the other is the same as checking their concatenation; `all_transfers` concatenates the per-organization results |
| Tracker.GitHubTracker.constructor | github_tracker.py:16-26 | keeps the store it is given (in a valid state); the full budget of 5000 requests, no known reset time, no request sent |
| Tracker.GitHubTracker.CheckRateLimit | github_tracker.py:28-34 | the session becomes `AfterCheck` of the old session |
| Tracker.GitHubTracker.MakeRequest | github_tracker.py:36-58 | the new session and the body are those of `Request` on the old session and GitHub's reply |
| Tracker.GitHubTracker.GetRepoInfo | github_tracker.py:60-63 | one request for the repository, as `Request` describes |
| Tracker.GitHubTracker.GetRepoEvents | github_tracker.py:65-86 | one request; with no body or an empty one, no events; otherwise the transfer events not before `since`, which defaults to one hour before the call |
| Tracker.GitHubTracker.GetOrgRepos | github_tracker.py:88-106 | the names gathered and the session after the loop are those of `ListFrom` from page 1 |
| Tracker.GitHubTracker.DetectOwnershipChange | github_tracker.py:108-134 | one request; without information, no transfer; otherwise the heuristic applied to it, dated with the clock after the request |
| Tracker.GitHubTracker.CheckRepository | github_tracker.py:140-164 | one iteration of the loop: the transfer detected, the session and the table afterwards are those of `CheckOne` |
| Tracker.GitHubTracker.CheckRepositories | github_tracker.py:136-166 | the transfers returned, the session and the table afterwards are those of `CheckAll` |
| Tracker.GitHubTracker.CheckOrganizations | github_tracker.py:168-178 | the transfers returned, the session and the table afterwards are those of `CheckOrgs` |

## Left out

- HTTP and the webhook are not modelled. GitHub's replies are a function of the request and of the number of requests sent before it. A webhook post's outcome is the parameter `deliver`.
- Response JSON is not parsed. A reply body is already the fields the tracker reads.
- Logging is not modelled. It has no effect on results.
- Time is an integer millisecond clock in UTC, advanced only by the tracker's sleeps. Time spent in requests and computation is not modelled.
  - `time.sleep(0.1)` is 100 ms.
  - The float `sleep_time + 1` of `check_rate_limit` is `reset * 1000 - clock + 1000` ms.
- Dates are integers. The ISO-8601 strings stored in `date` are not modelled.
  - `CURRENT_TIMESTAMP` is the clock in whole seconds.
  - `datetime.now()` is the clock; the local time zone is not modelled.
- `avg_stars` (a floating-point `AVG`) is not modelled.
- GetStats (`Database.RepoRadarDB.GetStats`): the statistics dictionary leaves out `avg_stars`.
- The order SQLite gives rows with equal `created_at`, or owners with equal counts, is unspecified. The model fixes one order. Only what SQL promises (sorted, drawn from the table, the largest kept) is stated as a contract.
- Exceptions other than a failed request are not modelled.
  - These include a missing `owner`/`full_name` key (`KeyError`), an empty JSON object treated as "no information", and an SQLite error.
  - The `except` branches that turn such errors into `False` or `[]` are therefore not modelled.
- AddTransfer (`Database.RepoRadarDB.AddTransfer`): always returns `True`, because the SQLite failures behind the `False` branch are not modelled.
- `stargazers_count: null` is not modelled. Stars are an integer, or absent (0).
- `lower()` is ASCII-only. Unicode case mapping is not modelled.
- A transfer handed to the notifier always carries its `language` key. The `'Unknown'` default for a missing key applies only to the tracker's detection (`LanguageOf`), and `None` is rendered as "None".
- The `Unknown`/`0` defaults for missing keys in the notifier are not modelled, because the record always has every field.
- GetOrgRepos (`Tracker.GitHubTracker.GetOrgRepos`): requires a ghost page number `bound >= 1` from which GitHub lists nothing for the organization. The source loops for ever when every page is non-empty, and that run cannot be stated as a terminating method.
- CheckOrganizations (`Tracker.GitHubTracker.CheckOrganizations`): has the same requirement for every organization, for the same reason.
- The request headers (`Authorization`, `Accept`) and the URLs are not modelled. A request is identified by its kind and its arguments.
- `app.py`, the dashboard and the test-data script are not part of this model.

## Findings

| source | as written | input that shows it | evidently intended | confidence | as-written member | corrected member |
|---|---|---|---|---|---|---|
| github_tracker.py:67-79 | `since` defaults to `datetime.now() - timedelta(hours=1)`, which has no UTC offset. Every event date is parsed with `+00:00` and has one. Python refuses `event_date < since` with `TypeError`. | any non-empty event list with the default `since`, e.g. `[TransferEvent at now]` | an offset-aware `since` one hour before now (UTC), so the call returns the transfer events of the last hour | high, not executed | Tracker.DefaultSinceRaises | Tracker.GitHubTracker.GetRepoEvents |
