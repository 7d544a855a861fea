/**
  The whole crawl as a state machine. A state holds the visited set, the tasks
  spawned but not yet run (`go Crawl(...)` not yet scheduled), the wait-group
  counter and the log of reported events. A step lets the scheduler pick ANY
  pending task and runs that invocation of `Crawl` to its return; since the
  outcome depends only on the order in which URLs are claimed, the choice of
  index covers every goroutine interleaving.
 */
module CrawlMachine {
  import opened VisitedSet
  import opened Fetcher
  import opened Crawl

  datatype State = State(visited: set<Url>, pending: seq<Task>, wg: int, log: seq<Event>)

  /** `main`: an empty visited set, `wg.Add(1)` for the root, and the root task itself. */
  function Init(root: Url, maxDepth: int): State
  {
    State({}, [Task(root, maxDepth)], 1, [])
  }

  /** The pending tasks with the one at index `i` taken out. */
  function RemoveAt(tasks: seq<Task>, i: nat): (rest: seq<Task>)
    requires i < |tasks|
    ensures |rest| == |tasks| - 1
    ensures multiset(rest) == multiset(tasks) - multiset{tasks[i]}
    ensures forall x :: x in rest ==> x in tasks
  {
    assert tasks == tasks[..i] + [tasks[i]] + tasks[i + 1..];
    tasks[..i] + tasks[i + 1..]
  }

  /**
    Run the pending task at index `i` to completion: the chosen task leaves the
    pending pool, its children join it, every OTHER pending task is untouched, the
    counter moves by the number of children minus the one `Done`, and the visited
    set and the log grow by what the invocation claimed and reported.
   */
  function Step(table: Table, s: State, i: nat): (r: State)
    requires i < |s.pending|
    ensures var o := CrawlTask(table, s.visited, s.pending[i]);
            && multiset(r.pending) == multiset(s.pending) - multiset{s.pending[i]} + multiset(o.spawned)
            && (forall x :: x in r.pending <==> x in RemoveAt(s.pending, i) || x in o.spawned)
            && r.wg == s.wg + |o.spawned| - 1
            && s.visited <= r.visited && r.visited == o.marked
            && r.log == s.log + o.events
  {
    var o := CrawlTask(table, s.visited, s.pending[i]);
    LaunchThenDone(s.wg, o.spawned);
    State(o.marked, RemoveAt(s.pending, i) + o.spawned, ApplyWg(s.wg, o.ops), s.log + o.events)
  }

  /**
    While a step is in progress, at every point of its own operations the counter
    still covers the other pending tasks, the running invocation and every child
    it has launched so far. In particular it is never zero before the step's
    `Done`, so `Wait` cannot return in the middle of a fan-out.
   */
  lemma StepCounterCoversLive(table: Table, s: State, i: nat, k: nat)
    requires CounterInv(s)
    requires i < |s.pending|
    requires k < |CrawlTask(table, s.visited, s.pending[i]).ops|
    ensures var ops := CrawlTask(table, s.visited, s.pending[i]).ops[..k];
            ApplyWg(s.wg, ops) >= |s.pending| + Gos(ops) && ApplyWg(s.wg, ops) > 0
  {
    NoEarlyZero(s.wg, CrawlTask(table, s.visited, s.pending[i]).spawned, k);
  }

  /**
    Run a schedule: each entry picks the next task to run (modulo the number
    pending), so every interleaving of goroutines is some schedule. Stops early
    once nothing is pending.
   */
  function Run(table: Table, s: State, sched: seq<nat>): (r: State)
    ensures s.visited <= r.visited
    ensures |s.log| <= |r.log| && r.log[..|s.log|] == s.log
    decreases |sched|
  {
    if sched == [] || s.pending == [] then s
    else
      var next := Step(table, s, sched[0] % |s.pending|);
      var r := Run(table, next, sched[1..]);
      assert next.log[..|s.log|] == s.log;
      assert r.log[..|s.log|] == r.log[..|next.log|][..|s.log|];
      r
  }

  // ---------------------------------------------------------------------------
  // Safety

  /** `u` can be reached from `root` by following at most `n` links of the table. */
  ghost predicate Reach(table: Table, root: Url, u: Url, n: int)
    decreases n
  {
    u == root || (n > 0 && exists v :: v in table && u in table[v].urls && Reach(table, root, v, n - 1))
  }

  /** The URLs that appear in the log, one per call of `Fetch`. */
  function LoggedUrls(log: seq<Event>): set<Url>
  {
    set e | e in log :: e.url
  }

  /** No URL is reported twice, i.e. no URL is fetched twice. */
  ghost predicate DistinctUrls(log: seq<Event>)
  {
    forall j, k :: 0 <= j < k < |log| ==> log[j].url != log[k].url
  }

  /** A reported event agrees with the table: found pages carry their body, failures are missing keys. */
  ghost predicate Faithful(table: Table, e: Event)
  {
    match e
    case Found(u, body) => u in table && table[u].body == body
    case Failed(u, line) => u !in table && line == NotFound(u).Message()
  }

  /**
    A faithful log without repeated URLs never prints the same error line twice,
    since a not-found message names its URL.
   */
  lemma DistinctErrorLines(table: Table, log: seq<Event>)
    requires DistinctUrls(log)
    requires forall e :: e in log ==> Faithful(table, e)
    ensures forall j, k :: 0 <= j < k < |log| && log[j].Failed? && log[k].Failed? ==> log[j].line != log[k].line
  {
    forall j, k | 0 <= j < k < |log| && log[j].Failed? && log[k].Failed?
      ensures log[j].line != log[k].line
    {
      assert Faithful(table, log[j]) && Faithful(table, log[k]);
      MessageNamesUrl(log[j].url, log[k].url);
    }
  }

  /** The wait-group counter equals the number of tasks registered but not yet finished. */
  ghost predicate CounterInv(s: State)
  {
    s.wg == |s.pending|
  }

  /** What the log of a crawl from `root` at `maxDepth` satisfies. */
  ghost predicate LogInv(table: Table, root: Url, maxDepth: int, s: State)
  {
    && DistinctUrls(s.log)
    && s.visited == LoggedUrls(s.log)
    && (forall e :: e in s.log ==> Faithful(table, e))
    && (forall e :: e in s.log ==> Reach(table, root, e.url, maxDepth - 1))
    && (s.log != [] ==> maxDepth > 0)
  }

  /** Every pending task is within reach of the root, its depth counting down the links taken. */
  ghost predicate PendingInv(table: Table, root: Url, maxDepth: int, s: State)
  {
    forall t :: t in s.pending ==> t.depth <= maxDepth && Reach(table, root, t.url, maxDepth - t.depth)
  }

  /** The invariant of every crawl started by `Init(root, maxDepth)`. */
  ghost predicate Inv(table: Table, root: Url, maxDepth: int, s: State)
  {
    CounterInv(s) && LogInv(table, root, maxDepth, s) && PendingInv(table, root, maxDepth, s)
  }

  /** Reachability within `n` links implies reachability within any larger bound. */
  lemma {:induction false} ReachMonotone(table: Table, root: Url, u: Url, n: int, m: int)
    requires n <= m
    requires Reach(table, root, u, n)
    ensures Reach(table, root, u, m)
    decreases n
  {
    if u != root {
      var v :| v in table && u in table[v].urls && Reach(table, root, v, n - 1);
      ReachMonotone(table, root, v, n - 1, m - 1);
    }
  }

  lemma InitInv(table: Table, root: Url, maxDepth: int)
    ensures Inv(table, root, maxDepth, Init(root, maxDepth))
  {
  }

  /** A step that fetches appends one event for a URL not fetched before, within the depth bound. */
  lemma StepLogInv(table: Table, root: Url, maxDepth: int, s: State, i: nat)
    requires i < |s.pending|
    requires LogInv(table, root, maxDepth, s) && PendingInv(table, root, maxDepth, s)
    ensures LogInv(table, root, maxDepth, Step(table, s, i))
  {
    var t := s.pending[i];
    var o := CrawlTask(table, s.visited, t);
    var r := Step(table, s, i);
    if o.branch == FetchFailed || o.branch == FannedOut {
      FetchStepLog(table, root, maxDepth, s, i);
    } else {
      assert r.log == s.log && r.visited == s.visited;
    }
  }

  /** The fetching branches: one new event, for the URL just claimed. */
  lemma FetchStepLog(table: Table, root: Url, maxDepth: int, s: State, i: nat)
    requires i < |s.pending|
    requires CrawlTask(table, s.visited, s.pending[i]).branch in {FetchFailed, FannedOut}
    requires LogInv(table, root, maxDepth, s) && PendingInv(table, root, maxDepth, s)
    ensures LogInv(table, root, maxDepth, Step(table, s, i))
  {
    var t := s.pending[i];
    var o := CrawlTask(table, s.visited, t);
    var r := Step(table, s, i);
    var e := o.events[0];
    assert r.log == s.log + [e] && e.url == t.url;
    assert Faithful(table, e);
    AppendFresh(s.log, e);
    assert r.visited == LoggedUrls(r.log);
    assert t in s.pending;
    ReachMonotone(table, root, t.url, maxDepth - t.depth, maxDepth - 1);
    assert forall x :: x in r.log ==> x in s.log || x == e;
  }

  /** Logging a URL not logged before keeps the log free of duplicates. */
  lemma AppendFresh(log: seq<Event>, e: Event)
    requires DistinctUrls(log) && e.url !in LoggedUrls(log)
    ensures DistinctUrls(log + [e])
    ensures LoggedUrls(log + [e]) == LoggedUrls(log) + {e.url}
  {
    var l := log + [e];
    forall j, k | 0 <= j < k < |l|
      ensures l[j].url != l[k].url
    {
      if k == |log| {
        assert l[j] in log;
      }
    }
  }

  /** The children a step spawns are one link further from the root and one level shallower. */
  lemma StepPendingInv(table: Table, root: Url, maxDepth: int, s: State, i: nat)
    requires i < |s.pending|
    requires PendingInv(table, root, maxDepth, s)
    ensures PendingInv(table, root, maxDepth, Step(table, s, i))
  {
    var t := s.pending[i];
    var o := CrawlTask(table, s.visited, t);
    assert t in s.pending;
    forall c | c in o.spawned
      ensures c.depth <= maxDepth && Reach(table, root, c.url, maxDepth - c.depth)
    {
      var k :| 0 <= k < |o.spawned| && o.spawned[k] == c;
      assert c.url in table[t.url].urls;
    }
  }

  /** Every step, whichever task the scheduler picks, preserves the invariant. */
  lemma StepInv(table: Table, root: Url, maxDepth: int, s: State, i: nat)
    requires i < |s.pending|
    requires Inv(table, root, maxDepth, s)
    ensures Inv(table, root, maxDepth, Step(table, s, i))
  {
    StepLogInv(table, root, maxDepth, s, i);
    StepPendingInv(table, root, maxDepth, s, i);
  }

  /** The largest number of links on any page of the table. */
  ghost function MaxLinks(table: Table): (m: nat)
    ensures forall u :: u in table ==> |table[u].urls| <= m
    decreases |table|
  {
    if table == map[] then 0
    else
      var u :| u in table;
      var rest := table - {u};
      assert rest.Keys == table.Keys - {u};
      assert forall v :: v in table ==> v == u || (v in rest && rest[v] == table[v]);
      var m := MaxLinks(rest);
      if |table[u].urls| > m then |table[u].urls| else m
  }

  /**
    A bound on the steps left: each pending task is one step, and each table key
    not yet visited can still fan out into at most `MaxLinks` more tasks.
   */
  ghost function Bound(table: Table, s: State): nat
  {
    |s.pending| + |table.Keys - s.visited| * MaxLinks(table)
  }

  /** Every step strictly decreases the bound, so no schedule runs forever. */
  lemma StepDecreasesBound(table: Table, s: State, i: nat)
    requires i < |s.pending|
    ensures Bound(table, Step(table, s, i)) < Bound(table, s)
  {
    var t := s.pending[i];
    var o := CrawlTask(table, s.visited, t);
    var r := Step(table, s, i);
    var m := MaxLinks(table);
    var before := table.Keys - s.visited;
    var after := table.Keys - r.visited;
    if o.branch == FannedOut {
      RemoveOneCard(before, after, t.url);
      assert |o.spawned| <= m;
      MulPred(|before|, m);
    } else {
      assert after <= before;
      SubsetCard(after, before);
      MulMonotone(|after|, |before|, m);
    }
  }

  lemma RemoveOneCard(before: set<Url>, after: set<Url>, u: Url)
    requires u in before && after == before - {u}
    ensures |after| == |before| - 1
  {
  }

  lemma MulPred(n: nat, m: nat)
    requires n > 0
    ensures (n - 1) * m == n * m - m
  {
  }

  lemma SubsetCard(a: set<Url>, b: set<Url>)
    requires a <= b
    ensures |a| <= |b|
  {
    assert b == a + (b - a);
  }

  lemma MulMonotone(x: nat, y: nat, m: nat)
    requires x <= y
    ensures x * m <= y * m
  {
  }

  /** The invariant holds after any schedule. */
  lemma {:induction false} RunInv(table: Table, root: Url, maxDepth: int, s: State, sched: seq<nat>)
    requires Inv(table, root, maxDepth, s)
    ensures Inv(table, root, maxDepth, Run(table, s, sched))
    decreases |sched|
  {
    if sched != [] && s.pending != [] {
      StepInv(table, root, maxDepth, s, sched[0] % |s.pending|);
      RunInv(table, root, maxDepth, Step(table, s, sched[0] % |s.pending|), sched[1..]);
    }
  }

  /** Any schedule at least `Bound` long drains every pending task. */
  lemma {:induction false} RunDrains(table: Table, s: State, sched: seq<nat>)
    requires |sched| >= Bound(table, s)
    ensures Run(table, s, sched).pending == []
    decreases |sched|
  {
    if sched != [] && s.pending != [] {
      StepDecreasesBound(table, s, sched[0] % |s.pending|);
      RunDrains(table, Step(table, s, sched[0] % |s.pending|), sched[1..]);
    } else if sched == [] {
      assert Bound(table, s) == 0;
    }
  }

  /**
    The properties of a whole crawl from `main`'s initial state under any schedule:
    the counter equals the number of tasks left (so `Wait` returns exactly when
    none remain), no URL is fetched twice, every reported event agrees with the
    table, every fetched URL lies within `maxDepth - 1` links of the root, nothing
    is fetched when `maxDepth <= 0`, and a long enough schedule drains the crawl.
   */
  lemma CrawlSafety(table: Table, root: Url, maxDepth: int, sched: seq<nat>)
    ensures var r := Run(table, Init(root, maxDepth), sched);
            && r.wg == |r.pending|
            && (r.wg == 0 <==> r.pending == [])
            && DistinctUrls(r.log)
            && r.visited == LoggedUrls(r.log)
            && (forall e :: e in r.log ==> Faithful(table, e))
            && (forall e :: e in r.log ==> Reach(table, root, e.url, maxDepth - 1))
            && (maxDepth <= 0 ==> r.log == [])
            && (|sched| >= Bound(table, Init(root, maxDepth)) ==> r.pending == [] && r.wg == 0)
  {
    InitInv(table, root, maxDepth);
    RunInv(table, root, maxDepth, Init(root, maxDepth), sched);
    if |sched| >= Bound(table, Init(root, maxDepth)) {
      RunDrains(table, Init(root, maxDepth), sched);
    }
  }

  /**
    `main`: register the root, run it, and `Wait` until the counter is zero. The
    scheduler may pick any pending task at each step.
   */
  method RunCrawl(table: Table, root: Url, maxDepth: int) returns (final: State)
    ensures final.wg == 0 && final.pending == []
    ensures DistinctUrls(final.log)
    ensures final.visited == LoggedUrls(final.log)
    ensures forall e :: e in final.log ==> Faithful(table, e)
    ensures forall e :: e in final.log ==> Reach(table, root, e.url, maxDepth - 1)
    ensures maxDepth <= 0 ==> final.log == []
    ensures forall j, k :: 0 <= j < k < |final.log| && final.log[j].Failed? && final.log[k].Failed? ==>
              final.log[j].line != final.log[k].line
  {
    final := Init(root, maxDepth);
    InitInv(table, root, maxDepth);
    while final.wg != 0
      invariant Inv(table, root, maxDepth, final)
      decreases Bound(table, final)
    {
      var i :| 0 <= i < |final.pending|;
      StepInv(table, root, maxDepth, final, i);
      StepDecreasesBound(table, final, i);
      final := Step(table, final, i);
    }
    DistinctErrorLines(table, final.log);
  }

  /**
    `main` itself: the table `fetcher`, the root `https://golang.org/`, depth 4.
    Under every schedule the crawl drains, fetches no URL twice, reports only
    pages within three links of the root, and the only failure it can report is
    for `https://golang.org/cmd/`.
   */
  method CrawlGoSite() returns (final: State)
    ensures final.wg == 0 && final.pending == []
    ensures DistinctUrls(final.log)
    ensures forall e :: e in final.log ==> Faithful(GoTable(), e)
    ensures forall e :: e in final.log ==> Reach(GoTable(), "https://golang.org/", e.url, 3)
    ensures forall e :: e in final.log && e.Failed? ==> e.url == "https://golang.org/cmd/"
  {
    final := RunCrawl(GoTable(), "https://golang.org/", 4);
    GoTableOnlyCmdMissing();
    forall e | e in final.log && e.Failed?
      ensures e.url == "https://golang.org/cmd/"
    {
      assert Faithful(GoTable(), e) && e.url !in GoTable();
      assert Reach(GoTable(), "https://golang.org/", e.url, 3);
      assert e.url != "https://golang.org/";
      var v :| v in GoTable() && e.url in GoTable()[v].urls && Reach(GoTable(), "https://golang.org/", v, 2);
    }
  }
}
