/**
  The set of URLs already seen by the crawl (`SafeCounter.set`) and its single
  check-and-mark operation (`SafeCounter.visited`).

  The Go method answers `true` when the URL was ALREADY present and `false`
  when this call inserted it; the model keeps that polarity.
 */
module VisitedSet {

  type Url = string

  /** The answer of one check-and-mark call together with the set it leaves behind. */
  datatype ClaimResult = ClaimResult(present: bool, marked: set<Url>)

  /** One atomic check-and-mark: report whether `url` was present, and insert it if not. */
  function Claim(seen: set<Url>, url: Url): (r: ClaimResult)
    ensures r.present <==> url in seen
    ensures url in r.marked
    ensures r.marked - {url} == seen - {url}
  {
    if url in seen then ClaimResult(true, seen)
    else ClaimResult(false, seen + {url})
  }

  /** Claiming an absent URL inserts exactly that URL; claiming a present one changes nothing. */
  lemma ClaimEffect(seen: set<Url>, url: Url)
    ensures url !in seen ==> !Claim(seen, url).present && Claim(seen, url).marked == seen + {url}
    ensures url in seen ==> Claim(seen, url).present && Claim(seen, url).marked == seen
  {
  }

  /** The set only grows, so a second claim of the same URL is always answered "already present". */
  lemma ClaimTwice(seen: set<Url>, url: Url)
    ensures seen <= Claim(seen, url).marked
    ensures Claim(Claim(seen, url).marked, url).present
    ensures Claim(Claim(seen, url).marked, url).marked == Claim(seen, url).marked
  {
  }

  /** The answers of a series of claims issued one after another, and the final set. */
  datatype ClaimRun = ClaimRun(answers: seq<bool>, marked: set<Url>)

  /** Issue the claims for `urls` in order, each against the set left by the previous one. */
  function ClaimAll(seen: set<Url>, urls: seq<Url>): (r: ClaimRun)
    ensures |r.answers| == |urls|
    ensures r.marked == seen + set k | 0 <= k < |urls| :: urls[k]
    decreases |urls|
  {
    if urls == [] then ClaimRun([], seen)
    else
      var first := Claim(seen, urls[0]);
      var rest := ClaimAll(first.marked, urls[1..]);
      assert forall u :: u in urls <==> u == urls[0] || u in urls[1..];
      ClaimRun([first.present] + rest.answers, rest.marked)
  }

  /**
    In any order of calls, a claim is answered "not present" exactly when its URL
    was neither in the initial set nor claimed by an earlier call.
   */
  lemma {:induction false} ClaimAllFirstOccurrence(seen: set<Url>, urls: seq<Url>)
    ensures forall k :: 0 <= k < |urls| ==>
              (!ClaimAll(seen, urls).answers[k] <==> urls[k] !in seen && urls[k] !in urls[..k])
    decreases |urls|
  {
    if urls != [] {
      var first := Claim(seen, urls[0]);
      var tail := urls[1..];
      var rest := ClaimAll(first.marked, tail);
      ClaimAllFirstOccurrence(first.marked, tail);
      var r := ClaimAll(seen, urls);
      assert r.answers == [first.present] + rest.answers;
      forall k | 0 <= k < |urls|
        ensures !r.answers[k] <==> urls[k] !in seen && urls[k] !in urls[..k]
      {
        if k > 0 {
          assert r.answers[k] == rest.answers[k - 1];
          assert tail[k - 1] == urls[k];
          PrefixShift(seen, urls, k);
        }
      }
    }
  }

  /** Seen-before relative to the tail of a series, shifted back to the whole series. */
  lemma PrefixShift(seen: set<Url>, urls: seq<Url>, k: nat)
    requires 0 < k < |urls|
    ensures (urls[k] !in seen + {urls[0]} && urls[k] !in urls[1..][..k - 1])
            <==> (urls[k] !in seen && urls[k] !in urls[..k])
  {
    assert urls[..k] == [urls[0]] + urls[1..][..k - 1];
  }

  /**
    The deduplication guarantee: among any series of claims, a URL that was not
    initially present is answered "not present" by exactly one call, and a URL that
    was initially present never is.
   */
  lemma ClaimedExactlyOnce(seen: set<Url>, urls: seq<Url>, u: Url)
    ensures u in seen ==> forall k :: 0 <= k < |urls| && urls[k] == u ==> ClaimAll(seen, urls).answers[k]
    ensures u !in seen && u in urls ==>
              exists k :: 0 <= k < |urls| && urls[k] == u && !ClaimAll(seen, urls).answers[k]
    ensures forall j, k :: 0 <= j < k < |urls| && urls[j] == u && urls[k] == u ==> ClaimAll(seen, urls).answers[k]
  {
    ClaimAllFirstOccurrence(seen, urls);
    var r := ClaimAll(seen, urls);
    if u !in seen && u in urls {
      var k := FirstIndex(urls, u);
      assert urls[k] == u && !r.answers[k];
    }
    forall j, k | 0 <= j < k < |urls| && urls[j] == u && urls[k] == u
      ensures r.answers[k]
    {
      assert urls[..k][j] == u;
    }
  }

  /** The position of the first occurrence of `u` in `urls`. */
  function FirstIndex(urls: seq<Url>, u: Url): (k: nat)
    requires u in urls
    ensures k < |urls| && urls[k] == u && u !in urls[..k]
  {
    if urls[0] == u then 0
    else
      var k := 1 + FirstIndex(urls[1..], u);
      assert urls[..k] == [urls[0]] + urls[1..][..k - 1];
      k
  }
}
