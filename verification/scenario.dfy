/**
  A small crawl run to completion: `a` links to `b` and `c`, `b` links back to
  `a`, `c` has no links; the root is `a` at depth 2 and the scheduler always runs
  the oldest pending task. Each state of the run is written out and each step is
  checked on its own.
 */
module Scenario {
  import opened Fetcher
  import opened Crawl
  import opened CrawlMachine

  /** The link graph `a -> [b, c]`, `b -> [a]`, `c -> []`. */
  function Small(): Table
  {
    map["a" := Page("page a", ["b", "c"]), "b" := Page("page b", ["a"]), "c" := Page("page c", [])]
  }

  // The state after each step: visited set, pending tasks, counter, log.
  function S0(): State { State({}, [Task("a", 2)], 1, []) }
  function S1(): State { State({"a"}, [Task("b", 1), Task("c", 1)], 2, [Found("a", "page a")]) }
  function S2(): State { State({"a", "b"}, [Task("c", 1), Task("a", 0)], 2, [Found("a", "page a"), Found("b", "page b")]) }
  function S3(): State { State({"a", "b", "c"}, [Task("a", 0)], 1, [Found("a", "page a"), Found("b", "page b"), Found("c", "page c")]) }
  function S4(): State { State({"a", "b", "c"}, [], 0, [Found("a", "page a"), Found("b", "page b"), Found("c", "page c")]) }

  // Step k runs the oldest task of state k and yields state k + 1.

  lemma Step0() ensures S0().pending != [] && Step(Small(), S0(), 0) == S1() {}
  lemma Step1() ensures S1().pending != [] && Step(Small(), S1(), 0) == S2() {}
  lemma Step2() ensures S2().pending != [] && Step(Small(), S2(), 0) == S3() {}
  lemma Step3() ensures S3().pending != [] && Step(Small(), S3(), 0) == S4() {}

  // From state k, running the oldest task each time reaches the final state.

  /** Running the oldest task first, then the rest of the schedule. */
  lemma RunOldestFirst(table: Table, s: State, sched: seq<nat>)
    requires s.pending != [] && sched != [] && sched[0] == 0
    ensures Run(table, s, sched) == Run(table, Step(table, s, 0), sched[1..])
  {
  }

  lemma From3() ensures Run(Small(), S3(), [0]) == S4() { Step3(); RunOldestFirst(Small(), S3(), [0]); }
  lemma From2() ensures Run(Small(), S2(), [0, 0]) == S4() { Step2(); RunOldestFirst(Small(), S2(), [0, 0]); From3(); }
  lemma From1() ensures Run(Small(), S1(), [0, 0, 0]) == S4() { Step1(); RunOldestFirst(Small(), S1(), [0, 0, 0]); From2(); }
  lemma From0() ensures Run(Small(), S0(), [0, 0, 0, 0]) == S4() { Step0(); RunOldestFirst(Small(), S0(), [0, 0, 0, 0]); From1(); }

  /**
    Each page is fetched exactly once, the link back from `b` to `a` arrives at
    depth 0 and is dropped without a fetch, and the counter returns to zero.
   */
  lemma SmallCrawl()
    ensures var r := Run(Small(), Init("a", 2), [0, 0, 0, 0]);
            && r.pending == [] && r.wg == 0
            && r.visited == {"a", "b", "c"}
            && r.log == [Found("a", "page a"), Found("b", "page b"), Found("c", "page c")]
  {
    assert Init("a", 2) == S0();
    From0();
  }

  /** A root missing from the table is reported once as not found, and nothing is spawned. */
  lemma MissingRoot()
    ensures var r := Run(Small(), Init("z", 1), [0]);
            && r.pending == [] && r.wg == 0
            && r.log == [Failed("z", NotFound("z").Message())]
  {
    RunOldestFirst(Small(), Init("z", 1), [0]);
    assert Step(Small(), Init("z", 1), 0) == State({"z"}, [], 0, [Failed("z", NotFound("z").Message())]);
  }

  /** At depth 0 the root is dropped: nothing is claimed, nothing is fetched. */
  lemma ZeroDepth()
    ensures var r := Run(Small(), Init("a", 0), [0]);
            && r.pending == [] && r.wg == 0
            && r.visited == {} && r.log == []
  {
    RunOldestFirst(Small(), Init("a", 0), [0]);
    assert Step(Small(), Init("a", 0), 0) == State({}, [], 0, []);
  }
}
