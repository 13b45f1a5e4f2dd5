/**
 * The top-rated movie list that grows by pages as the reader scrolls
 * (src/components/InfiniteMovieList.jsx).
 *
 * Network responses and sentinel intersections are inputs. A fetch is split into
 * the part before the request is sent (`BeginFetch`: the guard and `setLoading(true)`)
 * and the part run when the response arrives (`CompleteFetch`), so that the
 * `loading` guard is observable; `FetchMovies` runs both back to back.
 */
module InfiniteList {
  import opened Wrappers
  import opened Catalog
  import opened Seqs

  /** The identifiers present in a list of movies. */
  function Ids(ms: seq<Movie>): set<int> {
    set m | m in ms :: m.id
  }

  /** No identifier occurs twice. */
  predicate UniqueIds(ms: seq<Movie>) {
    forall i, j :: 0 <= i < j < |ms| ==> ms[i].id != ms[j].id
  }

  /**
   * The results whose id is not in `existing`, in response order. `existing`
   * is the id set of the list before the page arrived; it does not grow while
   * the page is filtered.
   */
  function NewMovies(existing: set<int>, results: seq<Movie>): (added: seq<Movie>)
    ensures |added| <= |results|
    ensures forall k :: 0 <= k < |added| ==> added[k].id !in existing && added[k] in results
  {
    if results == [] then []
    else if results[0].id in existing then NewMovies(existing, results[1..])
    else [results[0]] + NewMovies(existing, results[1..])
  }

  /** The accumulated list after a page arrives. */
  function Merge(prev: seq<Movie>, results: seq<Movie>): (merged: seq<Movie>)
    ensures |prev| <= |merged| <= |prev| + |results| && merged[..|prev|] == prev
    ensures forall k :: |prev| <= k < |merged| ==> merged[k].id !in Ids(prev) && merged[k] in results
  {
    prev + NewMovies(Ids(prev), results)
  }

  /** The exhaustion rule: an empty page, or the last page the API reports. */
  predicate Exhausted(results: seq<Movie>, pageToFetch: int, totalPages: int) {
    |results| == 0 || pageToFetch >= totalPages
  }

  /** What one top-rated page request produces. */
  datatype PageResponse =
    | Failed(error: FetchError)
    | Page(results: seq<Movie>, totalPages: int)

  /**
   * The filter keeps every copy of a result whose id is not yet present and no
   * copy of any other.
   */
  lemma {:induction false} NewMoviesCount(existing: set<int>, results: seq<Movie>, m: Movie)
    ensures multiset(NewMovies(existing, results))[m] == if m.id in existing then 0 else multiset(results)[m]
  {
    if results != [] {
      NewMoviesCount(existing, results[1..], m);
      assert results == [results[0]] + results[1..];
      assert multiset(results) == multiset([results[0]]) + multiset(results[1..]);
    }
  }

  /** A movie is kept by the filter exactly when it is a result with an id not yet present. */
  lemma NewMoviesMembers(existing: set<int>, results: seq<Movie>, m: Movie)
    ensures m in NewMovies(existing, results) <==> m in results && m.id !in existing
  {
    NewMoviesCount(existing, results, m);
    assert m in NewMovies(existing, results) <==> m in multiset(NewMovies(existing, results));
    assert m in results <==> m in multiset(results);
  }

  /** The filter keeps the response order: its output is a subsequence of the page. */
  lemma {:induction false} NewMoviesSubsequence(existing: set<int>, results: seq<Movie>)
    ensures IsSubsequence(NewMovies(existing, results), results)
  {
    if results != [] {
      NewMoviesSubsequence(existing, results[1..]);
      var rest := NewMovies(existing, results[1..]);
      if results[0].id !in existing {
        assert ([results[0]] + rest)[1..] == rest;
      } else {
        SubsequenceOfTail(rest, results);
      }
    }
  }

  /** If the page has no duplicate ids, neither has what the filter keeps of it. */
  lemma {:induction false} NewMoviesUnique(existing: set<int>, results: seq<Movie>)
    requires UniqueIds(results)
    ensures UniqueIds(NewMovies(existing, results))
  {
    if results != [] {
      var rest := NewMovies(existing, results[1..]);
      NewMoviesUnique(existing, results[1..]);
      if results[0].id !in existing {
        forall k | 0 <= k < |rest|
          ensures rest[k].id != results[0].id
        {
          NewMoviesMembers(existing, results[1..], rest[k]);
          var t :| 0 <= t < |results[1..]| && results[1..][t] == rest[k];
          assert results[t + 1] == rest[k];
        }
      }
    }
  }

  /** Uniqueness is kept when both the old list and the page are duplicate-free. */
  lemma MergeUniqueIds(prev: seq<Movie>, results: seq<Movie>)
    requires UniqueIds(prev) && UniqueIds(results)
    ensures UniqueIds(Merge(prev, results))
  {
    var added := NewMovies(Ids(prev), results);
    NewMoviesUnique(Ids(prev), results);
    var merged := prev + added;
    forall i, j | 0 <= i < j < |merged|
      ensures merged[i].id != merged[j].id
    {
      if j >= |prev| && i < |prev| {
        NewMoviesMembers(Ids(prev), results, added[j - |prev|]);
        assert merged[i] in prev;
      }
    }
  }

  /** Within one page duplicates are not removed: two copies of a new movie both land. */
  lemma DuplicatesWithinPageKept(prev: seq<Movie>, m: Movie)
    requires m.id !in Ids(prev)
    ensures Merge(prev, [m, m]) == prev + [m, m]
    ensures !UniqueIds(Merge(prev, [m, m]))
  {
    assert [m, m][1..] == [m] && [m][1..] == [];
    assert NewMovies(Ids(prev), [m]) == [m];
    assert Merge(prev, [m, m])[|prev|] == Merge(prev, [m, m])[|prev| + 1];
  }

  /**
   * The merged list is the old list followed by exactly the results with an id
   * not yet present, in response order: a subsequence of the page holding every
   * copy of such a result and nothing else. Every result id ends up in the list,
   * and every id in it came from the old list or the page.
   */
  lemma MergeSpec(prev: seq<Movie>, results: seq<Movie>)
    ensures |Merge(prev, results)| >= |prev| && Merge(prev, results)[..|prev|] == prev
    ensures IsSubsequence(Merge(prev, results)[|prev|..], results)
    ensures forall m: Movie ::
      multiset(Merge(prev, results)[|prev|..])[m] == if m.id in Ids(prev) then 0 else multiset(results)[m]
    ensures Ids(Merge(prev, results)) == Ids(prev) + Ids(results)
  {
    var added := NewMovies(Ids(prev), results);
    var merged := prev + added;
    assert merged[..|prev|] == prev && merged[|prev|..] == added;
    NewMoviesSubsequence(Ids(prev), results);
    forall m: Movie ensures multiset(added)[m] == if m.id in Ids(prev) then 0 else multiset(results)[m] {
      NewMoviesCount(Ids(prev), results, m);
    }
    forall id | id in Ids(results) ensures id in Ids(merged) {
      var m :| m in results && m.id == id;
      if id !in Ids(prev) {
        NewMoviesMembers(Ids(prev), results, m);
        assert m in added;
      } else {
        var p :| p in prev && p.id == id;
        assert p in merged;
      }
    }
    forall id | id in Ids(merged) ensures id in Ids(prev) + Ids(results) {
      var m :| m in merged && m.id == id;
      if m !in prev {
        assert m in added;
        NewMoviesMembers(Ids(prev), results, m);
      }
    }
  }

  /** The page-by-page loader: the component's state fields. */
  class Loader {
    var movies: seq<Movie>
    var page: int
    var loading: bool
    var error: Option<string>
    var hasMore: bool

    /** The page cursor is a page number: it starts at 1 and no step lowers it. */
    ghost predicate Valid()
      reads this
    {
      page >= 1
    }

    /** The initial state of the component (lines 9-13). */
    constructor ()
      ensures Valid()
      ensures movies == [] && page == 1 && !loading && error == None && hasMore
    {
      movies, page, loading, error, hasMore := [], 1, false, None, true;
    }

    /**
     * The start of `fetchMovies`: refuse while a fetch is outstanding or once the
     * list is exhausted; otherwise mark the fetch as outstanding and clear the error.
     */
    method BeginFetch() returns (started: bool)
      requires Valid()
      modifies this
      ensures Valid()
      ensures started == (!old(loading) && old(hasMore))
      ensures !started ==> unchanged(this)
      ensures started ==> loading && error == None
      ensures movies == old(movies) && page == old(page) && hasMore == old(hasMore)
    {
      if loading || !hasMore {
        return false;
      }
      loading := true;
      error := None;
      started := true;
    }

    /**
     * The rest of `fetchMovies` once the response for `pageToFetch` is in: an
     * error sets the message and keeps the list and the flag; a page is merged,
     * and exhaustion clears `hasMore`. Either way `loading` ends false.
     */
    method CompleteFetch(pageToFetch: int, response: PageResponse)
      requires Valid() && loading
      modifies this
      ensures Valid()
      ensures !loading && page == old(page)
      ensures old(!hasMore) ==> !hasMore
      ensures response.Failed? ==>
        error == Some(ErrorMessage(response.error)) && movies == old(movies) && hasMore == old(hasMore)
      ensures response.Page? ==>
        && error == old(error)
        && movies == Merge(old(movies), response.results)
        && hasMore == (old(hasMore) && !Exhausted(response.results, pageToFetch, response.totalPages))
    {
      match response {
        case Failed(e) =>
          error := Some(ErrorMessage(e));
        case Page(results, totalPages) =>
          movies := Merge(movies, results);
          if Exhausted(results, pageToFetch, totalPages) {
            hasMore := false;
          }
      }
      loading := false;
    }

    /** `fetchMovies(pageToFetch)` as one step: the guard, the request and its outcome. */
    method FetchMovies(pageToFetch: int, response: PageResponse) returns (fetched: bool)
      requires Valid()
      modifies this
      ensures Valid()
      ensures fetched == (!old(loading) && old(hasMore))
      ensures !fetched ==> unchanged(this)
      ensures fetched ==> !loading && page == old(page)
      ensures fetched && response.Failed? ==>
        error == Some(ErrorMessage(response.error)) && movies == old(movies) && hasMore
      ensures fetched && response.Page? ==>
        && error == None
        && movies == Merge(old(movies), response.results)
        && hasMore == !Exhausted(response.results, pageToFetch, response.totalPages)
    {
      fetched := BeginFetch();
      if fetched {
        CompleteFetch(pageToFetch, response);
      }
    }

    /**
     * The observer callback. The observer is installed only while more pages
     * remain and nothing is loading, and it advances the cursor by one when the
     * sentinel intersects.
     */
    method OnSentinel(isIntersecting: bool) returns (advanced: bool)
      requires Valid()
      modifies this
      ensures Valid()
      ensures advanced == (isIntersecting && old(hasMore) && !old(loading))
      ensures page == if advanced then old(page) + 1 else old(page)
      ensures !advanced ==> unchanged(this)
      ensures movies == old(movies) && loading == old(loading)
      ensures error == old(error) && hasMore == old(hasMore)
    {
      advanced := isIntersecting && hasMore && !loading;
      if advanced {
        page := page + 1;
      }
    }

    /** The effect run when `page` changes (and on mount): fetch it while more remain. */
    method OnPageChange(response: PageResponse) returns (fetched: bool)
      requires Valid()
      modifies this
      ensures Valid()
      ensures page == old(page)
      ensures fetched ==> !loading
      ensures fetched == (old(hasMore) && !old(loading))
      ensures !fetched ==> unchanged(this)
      ensures fetched && response.Failed? ==>
        error == Some(ErrorMessage(response.error)) && movies == old(movies) && hasMore == old(hasMore)
      ensures fetched && response.Page? ==>
        && error == None
        && movies == Merge(old(movies), response.results)
        && hasMore == !Exhausted(response.results, old(page), response.totalPages)
    {
      if hasMore {
        fetched := FetchMovies(page, response);
      } else {
        fetched := false;
      }
    }

    /**
     * One scroll step: an intersection, then the page effect if the cursor moved.
     * A step fetches exactly when the observer advances the cursor, and then
     * always fetches the new page; any other step changes nothing. A failed page
     * keeps the list, so ids stay unique across it.
     */
    method Scroll(isIntersecting: bool, response: PageResponse) returns (fetched: bool)
      requires Valid()
      modifies this
      ensures Valid()
      ensures page >= old(page)
      ensures fetched == (isIntersecting && old(hasMore) && !old(loading))
      ensures !fetched ==> unchanged(this)
      ensures old(!hasMore) ==> !hasMore && !fetched
      ensures fetched ==> page == old(page) + 1 && !loading
      ensures fetched && response.Failed? ==>
        error == Some(ErrorMessage(response.error)) && movies == old(movies) && hasMore == old(hasMore)
      ensures fetched && response.Page? ==>
        && error == None
        && movies == Merge(old(movies), response.results)
        && hasMore == !Exhausted(response.results, old(page) + 1, response.totalPages)
      ensures old(UniqueIds(movies)) && (response.Page? ==> UniqueIds(response.results)) ==> UniqueIds(movies)
    {
      var advanced := OnSentinel(isIntersecting);
      fetched := false;
      if advanced {
        fetched := OnPageChange(response);
        if fetched && response.Page? && UniqueIds(old(movies)) && UniqueIds(response.results) {
          MergeUniqueIds(old(movies), response.results);
        }
      }
    }
  }
}
