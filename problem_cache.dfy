/**
  The on-disk cache of problem texts used by `solve_euler_problem`: the
  directory `euler_problems/` holds one file per problem, named by CacheKey.Key.
  A problem whose file exists is read from it; otherwise the problem page is
  scraped and, when scraping succeeds, the text is written to the file.

  The directory is a map from file name to contents. The problem pages are a
  parameter: `fetch(n)` is the parsed page of problem `n`, the same on every call.
*/
module ProblemCache {
  import opened Wrappers
  import opened Transcriber
  import opened CacheKey

  class Cache {
    /** The files of the cache directory: name to contents. */
    var files: map<string, string>
    /** How many times a problem page has been scraped. */
    ghost var scrapes: nat

    /** The directory as it stands before the first load. */
    constructor(initial: map<string, string>)
      ensures files == initial && scrapes == 0
    {
      files := initial;
      scrapes := 0;
    }

    /** Every problem's file, when there is one, holds the transcript of that problem's page. */
    ghost predicate Faithful(fetch: int -> Doc)
      reads this
    {
      forall m :: Key(m) in files ==> Transcribe(fetch(m)) == Success(files[Key(m)])
    }

    /**
      Read-through load: the file's contents when it exists, and otherwise a
      fresh scrape, which is stored only when it succeeds (a failing scrape
      raises before anything is written).
    */
    method LoadProblem(n: int, fetch: int -> Doc) returns (text: Result<string, ScrapeError>)
      modifies this
      ensures Key(n) in old(files) ==>
        text == Success(old(files)[Key(n)]) && files == old(files) && scrapes == old(scrapes)
      ensures Key(n) !in old(files) ==>
        text == Transcribe(fetch(n)) && scrapes == old(scrapes) + 1 &&
        files == if text.Success? then old(files)[Key(n) := text.value] else old(files)
      ensures text.Success? ==> Key(n) in files && files[Key(n)] == text.value
      ensures forall k :: k != Key(n) ==> (k in files <==> k in old(files)) && (k in files ==> files[k] == old(files)[k])
      ensures old(Faithful(fetch)) ==> Faithful(fetch) && text == Transcribe(fetch(n))
    {
      var key := Key(n);
      if key in files {
        text := Success(files[key]);
      } else {
        text := TranscribeDoc(fetch(n));
        scrapes := scrapes + 1;
        if text.Success? {
          files := files[key := text.value];
        }
      }
      if old(Faithful(fetch)) {
        forall m | Key(m) in files
          ensures Transcribe(fetch(m)) == Success(files[Key(m)])
        {
          KeyInjective(m, n);
        }
      }
    }
  }

  /** A file written by a load is found by the next load of the same problem. */
  method LoadTwice(c: Cache, n: int, fetch: int -> Doc) returns (first: Result<string, ScrapeError>, second: Result<string, ScrapeError>)
    modifies c
    ensures first.Success? ==> second == first
    ensures first.Success? ==> c.scrapes == old(c.scrapes) + (if Key(n) in old(c.files) then 0 else 1)
    ensures old(c.Faithful(fetch)) ==> first == second && c.Faithful(fetch)
  {
    first := c.LoadProblem(n, fetch);
    second := c.LoadProblem(n, fetch);
  }
}
