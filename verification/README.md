# Concurrent web crawler: a Dafny model

The repository is the Go Tour's web crawler exercise, solved with goroutines. `Crawl(url, depth, fetcher)` does five things in order:

- it stops when `depth <= 0`;
- it claims the URL in a shared visited set (`SafeCounter.visited`) and stops if the URL was already there;
- it fetches the page and reports either the body or the error;
- it spawns one goroutine per link at `depth-1`;
- it signals completion on a shared `sync.WaitGroup`.

`main` registers the root, runs it and waits for the counter to reach zero. The fetcher is `fakeFetcher`, a table from URL to a canned page.

The model reads the crawl as a state machine (`CrawlMachine.State`). A state holds four things:

- the visited set;
- the pending tasks, meaning goroutines spawned but not yet run;
- the wait-group counter;
- the log of reported events.

A step lets the scheduler pick any pending task and runs that invocation of `Crawl` to its return as one atomic action. The outcome of a crawl depends only on the order in which URLs are claimed, and the index choice covers every goroutine interleaving. A schedule is a sequence of picks, taken modulo the number of tasks pending.

Modules, in dependency order:

- `Wrappers` (wrappers.dfy): `Option`, for Go's nil-or-not `error`.
- `VisitedSet` (visited.dfy): `SafeCounter.set` and `visited`, the check-and-mark.
- `Fetcher` (fetcher.dfy): `fakeFetcher.Fetch` over any finite table, and the table `main` uses.
- `Crawl` (crawl.dfy): one invocation of `Crawl`. It returns which of its four branches it took, the visited set it leaves, the events it reports, the children it spawns and its `Add`, `go` and `Done` operations in program order.
- `CrawlMachine` (machine.dfy): the state, one step, runs under arbitrary schedules, the invariant, termination, and `main`.
- `Scenario` (scenario.dfy): a small link graph run to completion, plus the depth-0 and missing-root cases.

Two facts about the code shape the model:

- `visited` answers `true` when the URL was already present, and `Crawl` returns on `true`. So an invocation goes on to fetch exactly when its claim inserted the URL.
- `visited` has a value receiver (exercise-web-crawler.go:22). Each call therefore locks its own copy of the `sync.Mutex`, while the map inside is shared. In the real program the check-and-mark is not serialized, and concurrent claims race on the map. The model treats each claim as atomic, as lines 23-24 intend. The dedup results below hold for that intended behaviour, not for the program as compiled.

## Model

| member | source | states |
|---|---|---|
| VisitedSet.Claim | exercise-web-crawler.go:22-31 | The answer is "already present" exactly when the URL was in the set. Afterwards the URL is in the set, and every other entry is unchanged. |
| VisitedSet.ClaimEffect | exercise-web-crawler.go:25-30 | Claiming an absent URL answers false and inserts exactly that URL. Claiming a present URL answers true and leaves the set unchanged. |
| VisitedSet.ClaimTwice | exercise-web-crawler.go:25-30 | The set only grows, so a second claim of the same URL always answers "already present" and changes nothing. |
| VisitedSet.ClaimAll | exercise-web-crawler.go:22-31 | A series of claims answers once per call, and leaves the set equal to the initial set plus every claimed URL. |
| VisitedSet.ClaimAllFirstOccurrence | exercise-web-crawler.go:22-31 | In any series of claims, a call answers "not present" if and only if its URL was neither in the initial set nor claimed by an earlier call. |
| VisitedSet.ClaimedExactlyOnce | exercise-web-crawler.go:22-31 | An initially absent URL gets exactly one "not present" answer, at its first claim, and "present" at every later claim. An initially present URL never gets "not present". |
| Fetcher.Fetch | exercise-web-crawler.go:72-77 | Fetch fails exactly when the URL is not a key of the table. On success it returns that entry's body and links. On failure it returns an empty body, no links and the not-found error for that URL. |
| Fetcher.MessageNamesUrl | exercise-web-crawler.go:76 | `FetchError.Message` is the `"not found: " + url` text that line 76 builds and line 47 prints. Two such messages are equal if and only if they are for the same URL. |
| Fetcher.GoTable | exercise-web-crawler.go:80-111 | Defines `main`'s table `fetcher`: four pages (`https://golang.org/`, `/pkg/`, `/pkg/fmt/`, `/pkg/os/`), each with its body and its links in source order. |
| Fetcher.GoTableOnlyCmdMissing | exercise-web-crawler.go:80-111 | In `main`'s table, every linked URL is a key of the table except `https://golang.org/cmd/`. |
| Crawl.ApplyWg | exercise-web-crawler.go:38-53 | Defines the `sync.WaitGroup` counter over a trace: `Add` adds 1, `Done` subtracts 1, and `go` leaves the counter unchanged. |
| Crawl.ApplyWgCounts | exercise-web-crawler.go:38-53 | The counter after a trace is its start plus the number of `Add`s minus the number of `Done`s, whatever their order and wherever the `go`s fall. |
| Crawl.Launch | exercise-web-crawler.go:51-54 | The fan-out loop issues, for the k-th child in link order, `Add` at position 2k and that child's `go` right after it. It never issues `Done`. |
| Crawl.CrawlTask | exercise-web-crawler.go:35-56 | Each of the four branches happens exactly under its condition: depth <= 0; URL already visited; URL not in the table; URL in the table. Depth <= 0 claims nothing. The first two branches report and spawn nothing. A failure prints the not-found message for the URL and spawns nothing. A success reports the table's body and spawns one task per link, in link order, at depth-1 >= 0. Every branch runs the fan-out (`Add` then `go`, per child) and then exactly one deferred `Done`. |
| Crawl.LaunchThenDone | exercise-web-crawler.go:38-54 | One invocation moves the wait-group counter by the number of children minus one. |
| Crawl.LaunchRegistersFirst | exercise-web-crawler.go:51-54 | After any prefix of the fan-out loop, the counter is at least its starting value plus the number of goroutines launched so far, because each `Add` comes before its `go`. |
| Crawl.NoEarlyZero | exercise-web-crawler.go:38-54 | At every point of an invocation before its final `Done`, the counter is at least its starting value plus the children launched so far. The starting value counts the invocation itself, so `Wait` cannot see zero while a fan-out is in progress. |
| Crawl.GoBeforeAddRegistersLate | exercise-web-crawler.go:52-53 | With the two loop statements swapped, right after the `go` the counter is below its starting value plus the launched child. The ordering of lines 52-53 is what the previous property needs. |
| Crawl.ExactlyOneDone | exercise-web-crawler.go:38-54 | Every invocation performs exactly one `Done`, as its last operation, after all its `Add`s and `go`s. |
| CrawlMachine.Init | exercise-web-crawler.go:59-60 | Defines `main`'s start: an empty visited set and log, the root at the given depth as the only pending task, and a counter of 1 after `counter.wg.Add(1)`. `CrawlMachine.InitInv` proves it satisfies the invariant. |
| CrawlMachine.Step | exercise-web-crawler.go:35-56 | The chosen task leaves the pending pool and its children join it. Every other pending task is untouched, as a multiset. This includes after a failed fetch. The counter moves by children minus one. The visited set only grows. The log grows by the invocation's events. |
| CrawlMachine.StepCounterCoversLive | exercise-web-crawler.go:38-54 | Under the counter invariant, at every point inside a step the counter is at least the number of pending tasks plus the children launched so far, and so never zero before the step's `Done`. |
| CrawlMachine.Run | exercise-web-crawler.go:53-61 | Under any schedule, the visited set only grows and the log is only appended to. |
| CrawlMachine.InitInv | exercise-web-crawler.go:58-60 | `main`'s initial state satisfies the invariant: an empty visited set, one root task, and a counter of 1 after `wg.Add(1)`. |
| CrawlMachine.AppendFresh | exercise-web-crawler.go:42-45 | Reporting a URL not reported before keeps the log free of duplicate URLs, and adds exactly that URL to the logged set. |
| CrawlMachine.FetchStepLog | exercise-web-crawler.go:42-50 | A fetching step adds one event, for a URL never fetched before. The event agrees with the table. The URL lies within `maxDepth - 1` links of the root. The visited set stays equal to the set of fetched URLs. |
| CrawlMachine.StepLogInv | exercise-web-crawler.go:38-50 | Whichever task runs, the log stays duplicate-free, faithful to the table, within the depth bound, and equal to the visited set. It stays empty when `maxDepth <= 0`. |
| CrawlMachine.StepPendingInv | exercise-web-crawler.go:51-54 | Every pending task has depth at most `maxDepth`, and its URL is reachable from the root in `maxDepth - depth` links. Spawning children one link further at `depth-1` keeps this. |
| CrawlMachine.StepInv | exercise-web-crawler.go:35-56 | Every step preserves the whole invariant. This includes: counter == number of pending tasks; no URL fetched twice; visited == fetched URLs. |
| CrawlMachine.StepDecreasesBound | exercise-web-crawler.go:39-53 | Every step strictly decreases the measure "pending tasks + unvisited table keys x longest link list". Only a newly claimed key can fan out. |
| CrawlMachine.DistinctErrorLines | exercise-web-crawler.go:46-47 | A faithful log with no repeated URL never prints the same error line twice. |
| CrawlMachine.RunInv | exercise-web-crawler.go:35-56 | The invariant holds after any schedule of any length. |
| CrawlMachine.RunDrains | exercise-web-crawler.go:39-53 | Any schedule at least as long as the measure leaves no task pending, so the crawl terminates, including on cyclic link graphs. |
| CrawlMachine.CrawlSafety | exercise-web-crawler.go:58-61 | From `main`'s start under any schedule, each of the following holds. The counter equals the number of pending tasks, so it is zero exactly when none remain. No URL is fetched twice. Every event agrees with the table. Every fetched URL is within `maxDepth - 1` links of the root. Nothing is fetched when `maxDepth <= 0`. A long enough schedule drains everything. |
| CrawlMachine.RunCrawl | exercise-web-crawler.go:58-61 | `Add(1)`, run the root, `Wait`: with any choice of next task, the loop ends with counter 0 and no task pending. No URL has been fetched twice, no error line is printed twice, and every report is faithful and within the depth bound. |
| CrawlMachine.CrawlGoSite | exercise-web-crawler.go:58-61 | `main` on its own table at depth 4 drains, fetches nothing twice, and reports only pages within three links of the root. The only failure it can report is for `https://golang.org/cmd/`. |
| Scenario.SmallCrawl | exercise-web-crawler.go:58-61 | On `a -> [b, c]`, `b -> [a]`, `c -> []` from `a` at depth 2, oldest task first: `a`, `b` and `c` are each found once, the link back to `a` is dropped at depth 0, and the counter ends at 0. |
| Scenario.MissingRoot | exercise-web-crawler.go:45-49 | A root missing from the table yields one not-found report and no children. |
| Scenario.ZeroDepth | exercise-web-crawler.go:39-41 | At depth 0 the root claims nothing and fetches nothing, and its `Done` brings the counter to 0. |

## Left out

- Goroutines, `sync.Mutex` and `sync.WaitGroup` as runtime mechanisms. Scheduling is a free choice of the next pending task. The counter is an integer. `Wait` is a loop that runs tasks until the counter is zero.
- The data race from the value receiver at exercise-web-crawler.go:22. Every call copies the whole `SafeCounter`, including the mutex and `counter.wg`. Each `visited` call therefore also reads the wait group without synchronisation while other goroutines run `Add` and `Done` on it. The copied wait group is never used, so that read changes no outcome. Claims are modelled as atomic, as intended. The racy behaviour, including Go's fatal "concurrent map writes", is not modelled.
- Interleaving inside one invocation. A child goroutine may start before its parent's loop ends. After its fetch the parent touches no shared state except the counter. Running each invocation atomically therefore loses no outcome, provided the counter never reaches zero mid-fan-out. That holds because each `Add` precedes its `go`, which `Crawl.NoEarlyZero` and `CrawlMachine.StepCounterCoversLive` state over the operation trace.
- Output formatting (`fmt.Println`, `fmt.Printf`). Reports are `Found(url, body)` events and `Failed(url, line)` events in a log, where `line` is the error message `fmt.Println` prints.
- Other implementations of the `Fetcher` interface. The model fetches from a finite table, as `fakeFetcher` does. The termination bound relies on the table being finite.
- Go's 64-bit `int` for depth. `depth-1` is only computed when `depth > 0`, so it cannot overflow, and unbounded integers give the same results.
- A nil `*fakeResult` in the table, which would make `Fetch` panic. Table entries in the model are always pages.
- Completeness, or shortest-path depth: that every URL within the depth bound is fetched. The code does not guarantee it, and the model does not state it.
- The ordering of concurrent reports. The log records the order in which the chosen schedule ran the invocations.
