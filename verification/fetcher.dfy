/**
  The fetch capability as the repository implements it: `fakeFetcher`, a finite
  table from URL to a canned page (body and outgoing links).
 */
module Fetcher {
  import opened Wrappers
  import opened VisitedSet

  /** One canned page (`fakeResult`). */
  datatype Page = Page(body: string, urls: seq<Url>)

  /** A `fakeFetcher`: the pages it knows, by URL. */
  type Table = map<Url, Page>

  /** The error value built by `fmt.Errorf("not found: %s", url)`. */
  datatype FetchError = NotFound(url: Url) {
    function Message(): string {
      "not found: " + url
    }
  }

  /** Go's three results `(body, urls, err)`; `err == None` stands for a nil error. */
  datatype Fetched = Fetched(body: string, urls: seq<Url>, err: Option<FetchError>)

  /** `fakeFetcher.Fetch`: the page's body and links when the URL is a key, an error otherwise. */
  function Fetch(table: Table, url: Url): (r: Fetched)
    ensures r.err.None? <==> url in table
    ensures url in table ==> r.body == table[url].body && r.urls == table[url].urls
    ensures url !in table ==> r.err == Some(NotFound(url)) && r.body == "" && r.urls == []
  {
    if url in table then Fetched(table[url].body, table[url].urls, None)
    else Fetched("", [], Some(NotFound(url)))
  }

  /** The error message names the URL that was missing, so distinct URLs give distinct messages. */
  lemma MessageNamesUrl(a: Url, b: Url)
    ensures NotFound(a).Message() == NotFound(b).Message() <==> a == b
  {
    if NotFound(a).Message() == NotFound(b).Message() {
      var p := "not found: ";
      assert a == NotFound(a).Message()[|p|..];
      assert b == NotFound(b).Message()[|p|..];
    }
  }

  /** The table `main` crawls with (`var fetcher`). */
  function GoTable(): Table
  {
    map[
      "https://golang.org/" := Page("The Go Programming Language",
        ["https://golang.org/pkg/", "https://golang.org/cmd/"]),
      "https://golang.org/pkg/" := Page("Packages",
        ["https://golang.org/", "https://golang.org/cmd/", "https://golang.org/pkg/fmt/", "https://golang.org/pkg/os/"]),
      "https://golang.org/pkg/fmt/" := Page("Package fmt",
        ["https://golang.org/", "https://golang.org/pkg/"]),
      "https://golang.org/pkg/os/" := Page("Package os",
        ["https://golang.org/", "https://golang.org/pkg/"])
    ]
  }

  /**
    In `main`'s table every link leads to another page of the table except
    `https://golang.org/cmd/`, so that is the only fetch of the crawl that can fail.
   */
  lemma GoTableOnlyCmdMissing()
    ensures forall u, v :: u in GoTable() && v in GoTable()[u].urls ==>
              (v in GoTable() <==> v != "https://golang.org/cmd/")
  {
  }
}
