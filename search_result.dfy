/**
 * The search results page (src/pages/SearchResult.jsx): a per-term cache in
 * session storage in front of the catalog's search endpoint.
 *
 * The debounced term is `Option<string>` because the `search` query parameter may
 * be absent (`null`). Session storage is a map from key to the stored list; the
 * JSON text the browser keeps in between is not modelled. The network response
 * is an input.
 */
module SearchResult {
  import opened Wrappers
  import opened Catalog
  import opened Seqs

  const CacheKeyPrefix: string := "search-"

  /** How a template literal renders the term: an absent parameter renders as "null". */
  function TermText(term: Option<string>): string {
    match term
    case None => "null"
    case Some(t) => t
  }

  /** JavaScript truthiness of the term: present and non-empty. */
  predicate Truthy(term: Option<string>) {
    term.Some? && term.value != ""
  }

  /** The session-storage key of a term. */
  function CacheKey(term: string): (key: string)
    ensures |key| == |CacheKeyPrefix| + |term|
    ensures key[..|CacheKeyPrefix|] == CacheKeyPrefix && key[|CacheKeyPrefix|..] == term
  {
    CacheKeyPrefix + term
  }

  /** Distinct terms never share a cache entry. */
  lemma CacheKeyInjective(a: string, b: string)
    ensures CacheKey(a) == CacheKey(b) <==> a == b
  {
    if CacheKey(a) == CacheKey(b) {
      assert a == CacheKey(a)[|CacheKeyPrefix|..];
    }
  }

  /** An absent term clears the entry that a search for the literal text "null" uses. */
  lemma AbsentTermSharesNullKey()
    ensures CacheKey(TermText(None)) == CacheKey("null")
    ensures Truthy(Some("null")) && !Truthy(None)
  {
  }

  /** The results with the adult titles removed. */
  function SafeMovies(results: seq<Movie>): (safe: seq<Movie>)
    ensures |safe| <= |results|
    ensures forall k :: 0 <= k < |safe| ==> !safe[k].adult && safe[k] in results
  {
    if results == [] then []
    else if results[0].adult then SafeMovies(results[1..])
    else [results[0]] + SafeMovies(results[1..])
  }

  /** The filter keeps every copy of a non-adult result and no copy of an adult one. */
  lemma {:induction false} SafeMoviesCount(results: seq<Movie>, m: Movie)
    ensures multiset(SafeMovies(results))[m] == if m.adult then 0 else multiset(results)[m]
  {
    if results != [] {
      SafeMoviesCount(results[1..], m);
      assert results == [results[0]] + results[1..];
      assert multiset(results) == multiset([results[0]]) + multiset(results[1..]);
    }
  }

  /**
   * The filter keeps the order of the response (a subsequence), keeps exactly
   * the non-adult titles, and filtering again changes nothing.
   */
  lemma {:induction false} SafeMoviesSpec(results: seq<Movie>)
    ensures IsSubsequence(SafeMovies(results), results)
    ensures forall m :: m in SafeMovies(results) ==> !m.adult
    ensures forall m :: m in results && !m.adult ==> m in SafeMovies(results)
    ensures SafeMovies(SafeMovies(results)) == SafeMovies(results)
  {
    if results != [] {
      SafeMoviesSpec(results[1..]);
      var rest := SafeMovies(results[1..]);
      if !results[0].adult {
        assert ([results[0]] + rest)[1..] == rest;
      } else {
        SubsequenceOfTail(rest, results);
      }
    }
    forall m ensures m in SafeMovies(results) <==> m in results && !m.adult {
      SafeMoviesCount(results, m);
      assert m in SafeMovies(results) <==> m in multiset(SafeMovies(results));
      assert m in results <==> m in multiset(results);
    }
  }

  /** What one search request produces. */
  datatype SearchResponse =
    | Failed(error: FetchError)
    | Results(results: seq<Movie>)

  /** The page's state and the tab's session storage. */
  class SearchView {
    var movies: seq<Movie>
    var loading: bool
    var error: Option<string>
    var cache: map<string, seq<Movie>>

    /** The initial state (lines 12-14): no movies, loading, no error. */
    constructor (storage: map<string, seq<Movie>>)
      ensures movies == [] && loading && error == None && cache == storage
    {
      movies, loading, error, cache := [], true, None, storage;
    }

    /** The clearing effect (lines 23-28): a falsy term removes its own key and nothing else. */
    method ClearIfEmpty(term: Option<string>)
      modifies this
      ensures Truthy(term) ==> cache == old(cache)
      ensures !Truthy(term) ==> cache == old(cache) - {CacheKey(TermText(term))}
      ensures movies == old(movies) && loading == old(loading) && error == old(error)
    {
      if !Truthy(term) {
        cache := cache - {CacheKey(TermText(term))};
      }
    }

    /**
     * `fetchSearchMovies` (lines 32-78): a cached list is used as it is and no
     * request is made; otherwise the response decides. A success shows and
     * stores the non-adult results; a failure sets the message and stores nothing.
     */
    method FetchSearchMovies(term: string, response: SearchResponse) returns (fetched: bool)
      modifies this
      ensures fetched == (CacheKey(term) !in old(cache))
      ensures !loading
      ensures !fetched ==> movies == old(cache)[CacheKey(term)] && error == None && cache == old(cache)
      ensures fetched && response.Results? ==>
        && movies == SafeMovies(response.results)
        && cache == old(cache)[CacheKey(term) := SafeMovies(response.results)]
        && error == None
      ensures fetched && response.Failed? ==>
        && error == Some(ErrorMessage(response.error))
        && movies == old(movies)
        && cache == old(cache)
    {
      loading := true;
      error := None;
      var key := CacheKey(term);
      if key in cache {
        movies := cache[key];
        loading := false;
        return false;
      }
      fetched := true;
      match response {
        case Failed(e) =>
          error := Some(ErrorMessage(e));
        case Results(results) =>
          var safe := SafeMovies(results);
          movies := safe;
          cache := cache[key := safe];
      }
      loading := false;
    }

    /**
     * Both effects that depend on the debounced term, in declaration order:
     * clear on a falsy term, search on a truthy one. With a falsy term no
     * request is made and only that term's key leaves the cache.
     */
    method OnTermChange(term: Option<string>, response: SearchResponse) returns (fetched: bool)
      modifies this
      ensures fetched ==> Truthy(term)
      ensures !Truthy(term) ==>
        && cache == old(cache) - {CacheKey(TermText(term))}
        && movies == old(movies) && loading == old(loading) && error == old(error)
      ensures Truthy(term) ==> !loading && fetched == (CacheKey(term.value) !in old(cache))
      ensures Truthy(term) && !fetched ==>
        movies == old(cache)[CacheKey(term.value)] && cache == old(cache) && error == None
      ensures Truthy(term) && fetched && response.Results? ==>
        && movies == SafeMovies(response.results) && cache == old(cache)[CacheKey(term.value) := movies]
        && error == None
      ensures Truthy(term) && fetched && response.Failed? ==>
        error == Some(ErrorMessage(response.error)) && cache == old(cache) && movies == old(movies)
    {
      ClearIfEmpty(term);
      fetched := false;
      if Truthy(term) {
        fetched := FetchSearchMovies(term.value, response);
      }
    }

    /**
     * The same term twice: the second time is a cache hit that makes no request
     * and shows the identical list, unless the first request failed.
     */
    method SearchTwice(term: string, first: SearchResponse, second: SearchResponse)
      returns (fetchedFirst: bool, fetchedSecond: bool)
      requires term != ""
      modifies this
      ensures fetchedFirst ==> CacheKey(term) !in old(cache)
      ensures !(fetchedFirst && first.Failed?) ==> !fetchedSecond
      ensures fetchedFirst && first.Failed? ==> fetchedSecond
      ensures fetchedFirst && first.Results? ==> movies == SafeMovies(first.results)
      ensures !fetchedFirst ==> CacheKey(term) in old(cache) && movies == old(cache)[CacheKey(term)]
    {
      fetchedFirst := OnTermChange(Some(term), first);
      ghost var shown := movies;
      fetchedSecond := OnTermChange(Some(term), second);
      assert !(fetchedFirst && first.Failed?) ==> !fetchedSecond && movies == shown;
    }
  }
}
