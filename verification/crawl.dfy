/**
  One invocation of `Crawl(url, depth, fetcher)`, run to its return as a single
  atomic action: the decision it takes, what it claims, what it reports, which
  tasks it spawns and the wait-group operations it performs.
 */
module Crawl {
  import opened Wrappers
  import opened VisitedSet
  import opened Fetcher

  /** A pending `go Crawl(url, depth, fetcher)`. */
  datatype Task = Task(url: Url, depth: int)

  /**
    What an invocation reports: `found: url body`, or the line `fmt.Println(err)`
    prints for a failed fetch, which is the error's message.
   */
  datatype Event = Found(url: Url, body: string) | Failed(url: Url, line: string)

  /**
    The operations of one invocation that the wait group can observe, in program
    order: `wg.Add(1)`, `go Crawl(...)` and the deferred `wg.Done()`.
   */
  datatype Op = Add | Go(task: Task) | Done

  /** The four ways an invocation ends. */
  datatype Branch = DepthExhausted | AlreadyVisited | FetchFailed | FannedOut

  /** Everything one invocation does to the shared state and the outside world. */
  datatype TaskOutcome = TaskOutcome(
    branch: Branch,
    marked: set<Url>,
    events: seq<Event>,
    spawned: seq<Task>,
    ops: seq<Op>)

  /** The fan-out loop: for each child, `wg.Add(1)` and then its `go`. */
  function Launch(ts: seq<Task>): (ops: seq<Op>)
    ensures |ops| == 2 * |ts|
    ensures forall k :: 0 <= k < |ts| ==> ops[2 * k] == Add && ops[2 * k + 1] == Go(ts[k])
    ensures forall k :: 0 <= k < |ops| ==> !ops[k].Done?
    decreases |ts|
  {
    if ts == [] then []
    else
      var rest := Launch(ts[1..]);
      var ops := [Add, Go(ts[0])] + rest;
      assert forall j :: 0 <= j < |ts| - 1 ==>
        ts[1..][j] == ts[j + 1] && ops[2 * j + 2] == rest[2 * j] && ops[2 * j + 3] == rest[2 * j + 1];
      ops
  }

  /** The counter after applying `ops` in order, starting from `wg`; a `go` leaves it alone. */
  function ApplyWg(wg: int, ops: seq<Op>): int
    decreases |ops|
  {
    if ops == [] then wg
    else ApplyWg(wg + (match ops[0] case Add => 1 case Go(_) => 0 case Done => -1), ops[1..])
  }

  /**
    The counter depends only on how many `Add`s and `Done`s were applied, not on
    their order or on the `go`s between them.
   */
  lemma {:induction false} ApplyWgCounts(wg: int, ops: seq<Op>)
    ensures ApplyWg(wg, ops) == wg + multiset(ops)[Add] - multiset(ops)[Done]
    decreases |ops|
  {
    if ops != [] {
      assert ops == [ops[0]] + ops[1..];
      assert multiset(ops) == multiset{ops[0]} + multiset(ops[1..]);
      ApplyWgCounts(wg + (match ops[0] case Add => 1 case Go(_) => 0 case Done => -1), ops[1..]);
    }
  }

  /** The number of goroutines launched by `ops`. */
  function Gos(ops: seq<Op>): nat
    decreases |ops|
  {
    if ops == [] then 0 else (if ops[0].Go? then 1 else 0) + Gos(ops[1..])
  }

  /**
    The body of `Crawl` for one task against the visited set `seen` and the table
    `table`. The deferred `wg.Done()` is the last counter operation of every branch.
   */
  function CrawlTask(table: Table, seen: set<Url>, t: Task): (r: TaskOutcome)
    ensures r.branch == DepthExhausted <==> t.depth <= 0
    ensures r.branch == AlreadyVisited <==> t.depth > 0 && t.url in seen
    ensures r.branch == FetchFailed <==> t.depth > 0 && t.url !in seen && t.url !in table
    ensures r.branch == FannedOut <==> t.depth > 0 && t.url !in seen && t.url in table
    ensures r.marked == if t.depth <= 0 then seen else seen + {t.url}
    ensures r.branch in {DepthExhausted, AlreadyVisited} ==> r.events == [] && r.spawned == []
    ensures r.branch == FetchFailed ==>
              r.events == [Failed(t.url, NotFound(t.url).Message())] && r.spawned == []
    ensures r.branch == FannedOut ==>
              && r.events == [Found(t.url, table[t.url].body)]
              && |r.spawned| == |table[t.url].urls|
              && forall k :: 0 <= k < |r.spawned| ==> r.spawned[k] == Task(table[t.url].urls[k], t.depth - 1)
    ensures forall k :: 0 <= k < |r.spawned| ==> 0 <= r.spawned[k].depth < t.depth
    ensures r.ops == Launch(r.spawned) + [Done]
  {
    if t.depth <= 0 then
      TaskOutcome(DepthExhausted, seen, [], [], [Done])
    else
      var c := Claim(seen, t.url);
      if c.present then
        TaskOutcome(AlreadyVisited, c.marked, [], [], [Done])
      else
        var f := Fetch(table, t.url);
        match f.err
        case Some(e) =>
          TaskOutcome(FetchFailed, c.marked, [Failed(t.url, e.Message())], [], [Done])
        case None =>
          var children := seq(|f.urls|, k requires 0 <= k < |f.urls| => Task(f.urls[k], t.depth - 1));
          TaskOutcome(FannedOut, c.marked, [Found(t.url, f.body)], children, Launch(children) + [Done])
  }

  /** One invocation moves the counter by its number of children minus one. */
  lemma {:induction false} LaunchThenDone(wg: int, ts: seq<Task>)
    ensures ApplyWg(wg, Launch(ts) + [Done]) == wg + |ts| - 1
    decreases |ts|
  {
    if ts != [] {
      var ops := Launch(ts) + [Done];
      assert ops[1..][1..] == Launch(ts[1..]) + [Done];
      LaunchThenDone(wg + 1, ts[1..]);
    }
  }

  /**
    Inside the fan-out loop the counter has always registered every goroutine
    launched so far: after any prefix of the loop's operations, it is at least its
    starting value plus the number of `go`s. This holds because each `Add` comes
    before its `go`.
   */
  lemma {:induction false} LaunchRegistersFirst(wg: int, ts: seq<Task>, k: nat)
    requires k <= |Launch(ts)|
    ensures ApplyWg(wg, Launch(ts)[..k]) >= wg + Gos(Launch(ts)[..k])
    decreases |ts|
  {
    if k > 0 {
      var ops := Launch(ts)[..k];
      assert Launch(ts) == [Add, Go(ts[0])] + Launch(ts[1..]);
      assert ops[0] == Add;
      if k == 1 {
        assert ops[1..] == [];
      } else {
        var rest := Launch(ts[1..])[..k - 2];
        assert ops[1..] == [Go(ts[0])] + rest;
        assert ops[1..][1..] == rest;
        LaunchRegistersFirst(wg + 1, ts[1..], k - 2);
      }
    }
  }

  /**
    Before the final `Done` of an invocation, the counter covers its starting value
    (which counts the invocation itself) plus every child launched so far. So with
    the invocation counted, `Wait` cannot see zero while a fan-out is in progress.
   */
  lemma NoEarlyZero(wg: int, ts: seq<Task>, k: nat)
    requires k < |Launch(ts) + [Done]|
    ensures var ops := (Launch(ts) + [Done])[..k];
            ApplyWg(wg, ops) >= wg + Gos(ops)
  {
    assert (Launch(ts) + [Done])[..k] == Launch(ts)[..k];
    LaunchRegistersFirst(wg, ts, k);
  }

  /**
    Swapping the two statements of the loop body, `go` before `Add`, would break
    this: right after the `go` the child runs but is not yet counted.
   */
  lemma GoBeforeAddRegistersLate(wg: int, t: Task)
    ensures var ops := [Go(t), Add, Done][..1];
            ApplyWg(wg, ops) < wg + Gos(ops)
  {
  }

  /** Every invocation performs exactly one `Done`, and it is its last operation. */
  lemma ExactlyOneDone(table: Table, seen: set<Url>, t: Task)
    ensures var ops := CrawlTask(table, seen, t).ops;
            ops[|ops| - 1] == Done && forall k :: 0 <= k < |ops| - 1 ==> ops[k] != Done
  {
  }
}
