# kube-contrib core, modelled in Dafny

kube-contrib keeps an in-memory leaderboard of contributors to a set of
GitHub organizations and repositories. This project models its sequential
core:

- **The contributor table** (`contrib.go`). A `Table` maps each GitHub handle
  to a `Record` holding a published commit count (`Commits`) and an
  in-progress count (`NewCommits`). The table supports adding a record,
  looking a handle up, resetting every in-progress count (`zeroCommits`),
  publishing them (`swapToCommits`) and copying all rows out (`Tabulate`).
  It also keeps the table client's rate bookkeeping: `UpdateRate` and the
  decision at the start of `CallorWait`. `sumStats` folds weekly statistics
  into totals.
- **The contributor paging loop** of `main` (`contrib.go`). It fetches
  pages while `cpage < lpage` and takes the next cursor from each response.
- **The quota-gated worker** (`worker.go`). `GitWorker.ProcessWorkItem`
  takes one queue item per turn. It stops on shutdown. It asks for rate
  limits and skips the item if that query fails. It picks the Core or Search
  budget by `isCore` and skips the item if that budget is 0. Otherwise it
  counts the item in `MsgProcessed` and runs it.

Files:

- `github.dfy` (module `GitHub`): the values the go-github client returns.
  These are rate limits, weekly statistics, contributors and a page with its
  `NextPage`/`LastPage` cursor. The client is external, so every answer it
  would give is an input.
- `contrib.dfy` (module `Contrib`): `Record`, `NewRecord`, class `Table`,
  and `SumStats`. The table's map updates are stated against the functions
  `Zeroed`, `Swapped` and `AddAll`. Lemmas about those functions cover any
  run of additions and the reset-then-publish sequence.
- `paging.dfy` (module `Paging`): the page loop as written
  (`FetchContributors`, specified by `Crawl`). It also holds the corrected
  loop (`FetchContributorsFixed`, specified by `CrawlFixed`). A provider that
  follows GitHub's Link-header convention (`GitHubPages`) shows the
  difference; see Findings.
- `worker.dfy` (module `Worker`): class `GitWorker` and `ProcessWorkItem`.
  The loop runs over a sequence of events. Each event is `Shutdown`, or an
  `Item` carrying the task, the rate-limit answer for that turn and whether
  the task fails. The loop is specified by `Decide`, `Executed` and `Taken`.

Inputs that replace I/O: the rate-limit answer (`RateResult`), the page
provider (a total function from page number to `PageResult`), and the
queue's events. Timestamps are opaque integers.

The model follows the code. In particular:

- `Tabulate` returns every row, with zero-commit rows included, in map order
  and unsorted.
- There is no accumulate operation.
- The worker checks the budget after it has dequeued an item. A skipped item
  is dropped, not retried.
- The page loop misses the last page of a multi-page listing (see Findings).

## Model

| member | source | states |
|---|---|---|
| `Contrib.NewRecord` | contrib.go:155-162 | The record has the given name, handle and published count. Its in-progress count is 0. |
| `Contrib.Table.constructor` | contrib.go:146-151 | A new table has no rows and zero rate fields. |
| `Contrib.Table.Add` | contrib.go:39-47 | The row of `rec.GHandle` becomes `rec`. The key set gains exactly that handle. Every other row is unchanged. Re-adding a handle overwrites its row. |
| `Contrib.AddAllSnoc` | contrib.go:39-47 | Adding one more record after a run of additions is one more map update, so a sequence of `Add` calls yields `AddAll` of the records in call order. |
| `Contrib.AddAllKeys` | contrib.go:39-53 | After any run of additions, a handle exists iff it existed before or one of the added records carries it. |
| `Contrib.AddAllLastWins` | contrib.go:39-47 | After a run of additions, a handle's row is the last record added under it. |
| `Contrib.AddAllUntouched` | contrib.go:39-47 | Additions under other handles leave an existing row unchanged. |
| `Contrib.AddAllKeyed` | contrib.go:39-47 | After additions, every row is still stored under its own handle, so each handle has one row. |
| `Contrib.Table.Exist` | contrib.go:49-53 | True iff the handle is a key of the row map. It reads the table and changes nothing. |
| `Contrib.Table.ZeroCommits` | contrib.go:55-60 | Every `NewCommits` becomes 0. `Commits`, name, handle and the key set are unchanged. |
| `Contrib.Table.SwapToCommits` | contrib.go:62-67 | Every `Commits` becomes its pre-call `NewCommits`. `NewCommits`, name, handle and the key set are unchanged. |
| `Contrib.ZeroThenSwapClearsCommits` | contrib.go:55-67 | Resetting then publishing sets every `Commits` to 0 and discards the earlier values. The keys are unchanged. |
| `Contrib.SwapIdempotent` | contrib.go:62-67 | Publishing twice has the same effect as publishing once. |
| `Contrib.Table.Tabulate` | contrib.go:69-78 | Output length equals the row count. Each element is the row stored under its handle. No handle appears twice. Every row appears. Nothing is filtered and the table is unchanged. |
| `Contrib.Table.UpdateRate` | contrib.go:133-144 | If the rate query fails, the remaining calls and reset time keep their old values. Otherwise they take the Core class's values. |
| `Contrib.Table.CallorWait` | contrib.go:112-118 | The rate is refreshed as in `UpdateRate`. `mustWait` is true iff the early return at contrib.go:116-118 is not taken, that is iff the remaining calls are not positive. |
| `Contrib.SumStats` | contrib.go:164-177 | Additions, deletions and commits are each the total of that field over the weeks. An empty list gives all zeros. |
| `Contrib.TotalAppend` | contrib.go:164-177 | The total over a concatenation is the sum of the two parts' totals, for every field. |
| `Paging.FetchContributors` | contrib.go:256-277 | The loop as written starts at `cpage = 0`, `lpage = 1000`. Its outcome is `Crawl`, which fetches while `cpage < lpage` and takes the next cursor from each reply. |
| `Paging.CompleteIsChain` | contrib.go:262-277 | A completed loop fetched pages only while `cpage < lpage` held, each from the previous `NextPage`. The last reply ended the loop. The contributors are the fetched pages concatenated in order. |
| `Paging.AbortedAtFailure` | contrib.go:265-270 | A failed fetch ends the loop at once. It is the last page requested, and every earlier page was fetched and continued the loop. |
| `Paging.AsWrittenMissesLastPage` | contrib.go:259-277 | With GitHub's pagination and n >= 2 pages, the loop as written fetches pages 1 to n-1 in order and never fetches page n. |
| `Paging.AsWrittenFetchesOnePage` | contrib.go:259-277 | A one-page listing is fetched in full by the loop as written, so the missed page appears only from two pages on. |
| `Paging.ThreePagesLoseTheThird` | contrib.go:259-277 | Concrete case: with three one-contributor pages, pages 0 and 2 are requested and the third contributor is missing. |
| `Paging.FetchContributorsFixed` | contrib.go:259-277 | The corrected loop keeps fetching while the reply names a next page. Its outcome is `CrawlFixed`. |
| `Paging.FixedFetchesEveryPage` | contrib.go:259-277 | With GitHub's pagination and any number of pages (an empty listing included), the corrected loop fetches every page once, in order, and returns all contributors. |
| `Worker.Decide` | worker.go:38-60 | A turn stops iff the event is a shutdown. It skips on a failed rate query. It skips when the worker's own class has 0 remaining: Core for a core worker, Search otherwise. It runs the task iff that count is non-zero. |
| `Worker.Taken` | worker.go:34-42 | The loop takes at most the queued events. It takes none only from an empty queue. |
| `Worker.TakesEveryItem` | worker.go:34-38 | Without a shutdown, every queued event is taken, one per turn. |
| `Worker.ShutdownEndsLoop` | worker.go:38-42 | The first shutdown is the last event taken. No task after it runs. |
| `Worker.SkipDropsItem` | worker.go:43-60 | A skipped item is consumed and dropped. It runs nothing, and the loop goes on with the next event. |
| `Worker.RunsOnlyWithBudget` | worker.go:43-64 | Every task that runs came from an item taken before any shutdown, with a successful rate query and a non-zero budget in the worker's class. |
| `Worker.ExecutedAppend` | worker.go:34-70 | Items are handled in queue order. A shutdown-free prefix runs its tasks first, and then the rest of the queue is handled. |
| `Worker.OutcomesIrrelevant` | worker.go:62-68 | A task's error does not stop the loop. What is taken and what runs does not depend on task outcomes. |
| `Worker.GitWorker.constructor` | worker.go:25-27 | A new worker has `MsgProcessed == 0`, `SleepInterval == 10`, the given name and `isCore`, and no limit set. |
| `Worker.GitWorker.ProcessWorkItem` | worker.go:29-72 | The loop consumes `Taken(events)` events and runs `Executed` in order. `MsgProcessed` grows by exactly the number of tasks run. `Limit` is nil when the loop returns or blocks in `Get`. |

## Left out

- `SyncCommits` and `GetContributions` (contrib.go:81-108, 179-213) are not modelled. They do not compile as written: `GetContributions(resp)` has one argument for four parameters, and `ListCommits()` has none. They are also driven by remote calls and 30-second sleeps.
- The countdown in `CallorWait` (contrib.go:120-129) is not modelled. It counts float seconds down with `time.Sleep`. The model stops at the decision to wait.
- `init` (contrib.go:215-225) is process start-up and goroutine launch, so it is not modelled.
- `web.go` is not modelled. It is an HTTP server with an HTML template, and its row numbering is presentation only.
- The `sync.Mutex` locks are not modelled. Every operation runs sequentially.
- The workqueue library (`Get`, `Done`), the go-github client and `RateLimits` are foreign calls. Their results are inputs. `Q.Done` bookkeeping is omitted.
- Sleeps and logging are not modelled.
- `Paging.FetchContributors`: the reply is dereferenced for printing at contrib.go:266, before the error check at 267-270. When a fetch fails with a nil reply (the request failed before any response arrived), `main` panics at line 266 instead of returning at line 269. `Aborted` stands for both endings; the model does not tell them apart.
- The `Updated` and `Update` timestamps are never written by the core, so they are omitted. `ResetTime` is an opaque integer.
- Records are values in the row map, so aliasing between a caller's `*Record` and the stored row is not modelled.
- `Contrib.Table.Add`: the error result is not modelled, because the source always returns nil.
- `Paging.FetchContributors`: the `fuel` bound stands in for the loop's missing bound. When the fuel runs out first, the outcome is `OutOfFuel`, which the source has no counterpart for.
- `Contrib.SumStats`: the weekly fields are Go pointers, and a nil one would panic. The model takes them as integers. The week timestamp, left nil in the result, is omitted.
- `Worker.GitWorker.ProcessWorkItem`: the task closures are opaque. Only their identity and whether they fail are modelled. `SleepInterval` is the integer 10 and is not a Go `time.Duration`. Integer overflow of `MsgProcessed` is not modelled.
- `Contrib.SumStats`: Go's 64-bit `int` overflow of the running totals (contrib.go:172-174) is not modelled; the totals are unbounded integers.
- `Contrib.Table.UpdateRate`: `RemaingCalls` is a Go `int`; its 64-bit range is not modelled.

## Findings

| source | as written | input that shows it | evidently intended | confidence | as-written member | corrected member |
|---|---|---|---|---|---|---|
| contrib.go:262-274 | `for cpage < lpage` with `lpage = LastPage`, `cpage = NextPage` from each reply | A 3-page listing. Page 1 replies next=2, last=3. Page 2 replies next=3, last=3, so `3 < 3` ends the loop and page 3 is never fetched. With 2 pages only page 1 is fetched. | fetch until the reply names no next page, so all n pages are fetched | high, not executed; relies on go-github setting `NextPage`/`LastPage` from GitHub's Link header | `Paging.AsWrittenMissesLastPage` | `Paging.FixedFetchesEveryPage` |
