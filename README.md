# Movie catalog client: a Dafny model of its client-side rules

The application is a browser front end over a movie-catalog HTTP API and a
hosted authentication service. Most of it is view code. This project models the
rules that sit inside that view code and decide what the user sees:

- the **infinite top-rated list** (`InfiniteMovieList.jsx`). It fetches pages one
  at a time, refuses to fetch while a request is outstanding or after the last
  page, and appends only movies whose id is new. It clears `hasMore` for good once
  a page is empty or the last page is reached. A sentinel element moves the page
  cursor forward.
- the **search page** (`SearchResult.jsx`). It keeps a session-storage cache keyed
  `"search-" + term`, serves hits without a request, and stores the non-adult
  results of a successful search. An empty or absent term drops its own key.
- the **sign-up and login forms** (`Signup.jsx`, `Login.jsx`). Their regular
  expressions become character-class predicates, the error maps are built check
  by check, and the submit handlers call the provider only on a valid form.
- the **debounce hook** (`useDebounce.js`). A timer is re-armed on every change,
  and a value is published only after the input has held still for the delay.
- the **theme flag** (`ThemeContext.jsx`) and the **auth listener**
  (`AuthContext.jsx`). Both mirror in-memory state into local storage.

Network responses, database lookups, observer firings and timer ticks are
parameters of the methods. Browser storage is a Dafny `map`. Each component with
mutable state is a class whose methods change its fields. The list merge, the
adult filter, the cache key and the form checks are functions and predicates, with
lemmas that state what they mean.

Files: `common.dfy` (Option, a subsequence relation, the movie record, fetch
errors and their messages, the user record), `infinite_list.dfy`, `search_result.dfy`,
`form_rules.dfy`, `signup.dfy`, `login.dfy`, `debounce.dfy`, `theme.dfy`,
`auth.dfy`.

Points where the model follows the code closely:

- The merge filters a page against the ids of the list as it was *before* the
  page arrived. Two copies of a new movie in one page both land
  (`DuplicatesWithinPageKept`). Uniqueness is therefore kept only when each
  page is itself duplicate-free.
- A failed page leaves the cursor where the observer put it. The next
  intersection moves on to the following page, so a failed page is not
  requested again.
- The search term comes from `URLSearchParams.get`, so it may be `null`. The
  template literal renders `null` as the text "null". Clearing an absent term
  therefore removes the cache entry of a real search for "null"
  (`AbsentTermSharesNullKey`).
- With an empty term, neither effect changes `loading`.
- A stored search list is a hit even when it is empty, because the stored JSON
  text `[]` is truthy.
- A thrown login error with an empty message shows the default text, just as a
  missing message does.
- Sign-up tests the reported error for truthiness. An empty error text is
  therefore taken as success and leads to the login page.
- A timer callback never runs in the task that armed it. The model therefore
  gives a delay of 0 one tick (`Wait`).
- Re-rendering with the same value and delay does not re-arm the timer. The burst
  property holds only when consecutive values differ.

## Model

| member | source | states |
|---|---|---|
| `Catalog.ErrorMessage` | src/components/InfiniteMovieList.jsx:39-41 | a non-OK status is reported as the fixed prefix followed by the code's decimal digits; a thrown error contributes its own message |
| `Catalog.DecimalReadBack` | src/components/InfiniteMovieList.jsx:40 | the decimal text of a status code reads back as that code |
| `Catalog.StatusReadBack` | src/components/InfiniteMovieList.jsx:40 | the status code can be read back from the message of a non-OK response |
| `InfiniteList.NewMovies` | src/components/InfiniteMovieList.jsx:47-48 | the filtered page is no longer than the page, and every movie it keeps is a result whose id is not among the old ids |
| `InfiniteList.Merge` | src/components/InfiniteMovieList.jsx:46-50 | the merged list starts with the old list unchanged, grows by at most the page, and every appended movie is a result with a new id |
| `InfiniteList.NewMoviesCount` | src/components/InfiniteMovieList.jsx:47-48 | the filter keeps every copy of a result whose id is not among the old ids, and no copy of any other |
| `InfiniteList.NewMoviesMembers` | src/components/InfiniteMovieList.jsx:47-48 | a movie survives the filter iff it is a result and its id is not among the old ids |
| `InfiniteList.NewMoviesSubsequence` | src/components/InfiniteMovieList.jsx:48 | the filter keeps the response order (its output is a subsequence of the page) |
| `InfiniteList.NewMoviesUnique` | src/components/InfiniteMovieList.jsx:47-48 | a duplicate-free page stays duplicate-free after filtering |
| `InfiniteList.MergeUniqueIds` | src/components/InfiniteMovieList.jsx:46-50 | if the old list and the page each have unique ids, so does the merged list |
| `InfiniteList.DuplicatesWithinPageKept` | src/components/InfiniteMovieList.jsx:47-49 | two copies of a new movie in one page are both appended, so the merged list has a duplicate id |
| `InfiniteList.MergeSpec` | src/components/InfiniteMovieList.jsx:46-50 | the merged list is the old list followed by a subsequence of the page holding exactly the copies of results with new ids; its id set is the old ids plus the page ids |
| `InfiniteList.Loader.constructor` | src/components/InfiniteMovieList.jsx:9-13 | starts with no movies, page 1, not loading, no error, more pages expected |
| `InfiniteList.Loader.BeginFetch` | src/components/InfiniteMovieList.jsx:20-23 | a fetch starts iff nothing is loading and more pages remain; a refused fetch changes nothing; a started one sets loading and clears the error |
| `InfiniteList.Loader.CompleteFetch` | src/components/InfiniteMovieList.jsx:39-61 | an error sets the message and keeps movies and hasMore; a page merges its results and clears hasMore iff it is empty or the page reached the total; loading ends false; hasMore never returns |
| `InfiniteList.Loader.FetchMovies` | src/components/InfiniteMovieList.jsx:18-64 | the whole fetch: no state change when refused, otherwise the outcome of the response with loading false |
| `InfiniteList.Loader.OnSentinel` | src/components/InfiniteMovieList.jsx:72-81 | the cursor moves to page + 1 iff the sentinel intersects, more pages remain and nothing is loading; nothing else changes |
| `InfiniteList.Loader.OnPageChange` | src/components/InfiniteMovieList.jsx:66-70 | a page change fetches the current page iff more pages remain and nothing is loading; a refused fetch changes nothing; a failure sets the message and keeps movies and hasMore; a page clears the error, merges its results and applies the exhaustion rule to the current page |
| `InfiniteList.Loader.Scroll` | src/components/InfiniteMovieList.jsx:66-81 | a step fetches iff the sentinel intersects while more pages remain and nothing is loading, and then fetches the next page; any other step changes nothing; a failure sets the message and keeps movies and hasMore; a page clears the error, merges and applies the exhaustion rule to the new page; unique ids survive a failed page and any duplicate-free page |
| `SearchResult.CacheKey` | src/pages/SearchResult.jsx:37 | the key is the prefix "search-" followed by the term |
| `SearchResult.CacheKeyInjective` | src/pages/SearchResult.jsx:37 | two terms share a key iff they are equal |
| `SearchResult.AbsentTermSharesNullKey` | src/pages/SearchResult.jsx:24-26 | an absent term is falsy and clears the key of a search for the text "null" |
| `SearchResult.SafeMovies` | src/pages/SearchResult.jsx:67 | the filtered list is no longer than the results, and every movie in it is a non-adult result |
| `SearchResult.SafeMoviesCount` | src/pages/SearchResult.jsx:67 | the adult filter keeps every copy of a non-adult result and no adult one |
| `SearchResult.SafeMoviesSpec` | src/pages/SearchResult.jsx:67 | the filtered list is a subsequence of the results, holds exactly the non-adult ones, and filtering again changes nothing |
| `SearchResult.SearchView.constructor` | src/pages/SearchResult.jsx:12-14 | starts with no movies, loading, no error, over the given session storage |
| `SearchResult.SearchView.ClearIfEmpty` | src/pages/SearchResult.jsx:23-28 | a falsy term removes exactly its own key; other entries and the view state are unchanged |
| `SearchResult.SearchView.FetchSearchMovies` | src/pages/SearchResult.jsx:32-78 | a hit shows the stored list with no request; a successful miss shows and stores the non-adult results under the key; a failure sets the message and writes nothing; loading ends false |
| `SearchResult.SearchView.OnTermChange` | src/pages/SearchResult.jsx:23-83 | a falsy term fires no request and only drops its key; a truthy term is looked up under its key: a hit shows the stored list, a successful miss shows and stores the non-adult results, both with the error cleared; a failure sets the message and keeps the shown list and the cache; loading ends false |
| `SearchResult.SearchView.SearchTwice` | src/pages/SearchResult.jsx:38-45 | after a hit or a successful miss, the same term again makes no request and shows the identical list; after a failure it requests again |
| `FormRules.UserNameByCount` | src/pages/Signup.jsx:29 | a name passes `ValidUserName` iff its length is within 2 to 8 and every character is counted by the class of letters, digits and Hangul syllables |
| `FormRules.PasswordByCount` | src/pages/Signup.jsx:31 | a password passes `ValidPassword` iff it has at least six characters, a positive count of letters, a positive count of digits, and letters and digits together make up all of it |
| `FormRules.PatternIsValidEmail` | src/pages/Signup.jsx:30 | every text matched by the e-mail regular expression has exactly one '@', no whitespace, a non-empty local part and a domain with an inner '.' |
| `FormRules.ValidEmailMatchesPattern` | src/pages/Signup.jsx:30 | every text of that shape is matched by the regular expression |
| `FormRules.EmailPatternIff` | src/pages/Login.jsx:27-31 | `MatchesEmailPattern`, the regular expression used by both forms, accepts exactly the texts of the shape `ValidEmail` describes |
| `FormRules.UserNameExamples` | src/pages/Signup.jsx:29 | sample names: Hangul and alphanumerics of length 2 to 8 pass; too short, too long or an underscore fail |
| `FormRules.PasswordExamples` | src/pages/Signup.jsx:31 | sample passwords: letters with digits of length 6 pass; no digit, too short or a symbol fail |
| `FormRules.EmailAccepted` | src/pages/Signup.jsx:30 | a sample address passes |
| `FormRules.EmailRejected` | src/pages/Signup.jsx:30 | two '@', a space or an empty local part fail |
| `FormRules.EmailRejectedNoDot` | src/pages/Signup.jsx:30 | a domain without '.' fails |
| `FormRules.EmailRejectedLeadingDot` | src/pages/Signup.jsx:30 | a domain starting with its only '.' fails |
| `FormRules.EmailRejectedTrailingDot` | src/pages/Signup.jsx:30 | a domain ending with its only '.' fails |
| `Signup.CollectErrors` | src/pages/Signup.jsx:27-51 | the error map has an entry, with that check's message, exactly for each failed check (name, e-mail, password, confirmation); the verdict is true iff the map is empty iff all four checks pass |
| `Signup.SignupPage.constructor` | src/pages/Signup.jsx:13-20 | empty form, no errors |
| `Signup.SignupPage.Change` | src/pages/Signup.jsx:22-25 | one field takes the new value, the rest of the form and the errors stay |
| `Signup.SignupPage.Validate` | src/pages/Signup.jsx:27-52 | the stored error map becomes exactly the failed checks; the result is true iff it is empty |
| `Signup.SignupPage.HandleSubmit` | src/pages/Signup.jsx:54-70 | sign-up is requested iff all checks pass, and otherwise the error map holds exactly the failed checks, each with its message; a truthy reported error becomes the only entry of the error map; no error or an empty one leads to the login page with an empty error map; a rejected call leaves the empty error map and does not lead to login |
| `Login.ThrownMessage` | src/pages/Login.jsx:60 | the shown text is the error's message when it is non-empty, otherwise the default text, and never empty |
| `Login.CollectErrors` | src/pages/Login.jsx:25-38 | an e-mail entry iff the address fails the shared check, a password entry iff the password is empty; valid iff no entry |
| `Login.LoginPage.constructor` | src/pages/Login.jsx:16-18 | empty form, no errors, no general error |
| `Login.LoginPage.Change` | src/pages/Login.jsx:20-23 | one field takes the new value, the rest stays |
| `Login.LoginPage.Validate` | src/pages/Login.jsx:25-38 | the stored error map becomes exactly the failed checks; the result is true iff both pass |
| `Login.LoginPage.HandleSubmit` | src/pages/Login.jsx:40-62 | errors and general error are cleared first; login runs iff the form is valid, and the error map then holds exactly the failed checks with their messages; a returned user is stored and the form reset; no user gives the wrong-credentials text; a throw gives its message or the default |
| `Debounce.Wait` | src/hooks/useDebounce.js:7-9 | a timer fires at least one tick and at least the delay after it is armed |
| `Debounce.Debouncer.constructor` | src/hooks/useDebounce.js:3-9 | the returned value starts at the initial input, the delay defaults to 500, and the mount effect arms a timer |
| `Debounce.Debouncer.Render` | src/hooks/useDebounce.js:6-15 | a new value or delay cancels the pending timer and arms one for the new value; an unchanged render keeps the timer; the returned value does not change |
| `Debounce.Debouncer.Tick` | src/hooks/useDebounce.js:7-9 | a due timer publishes the current input, which has been held for the whole delay; otherwise nothing is published |
| `Debounce.Debouncer.Idle` | src/hooks/useDebounce.js:7-9 | once the input has held still for the delay, the returned value equals it; with a timer pending it has been published exactly once, and with none nothing is published and no timer appears |
| `Debounce.Debouncer.Burst` | src/hooks/useDebounce.js:11-14 | of a burst of changes spaced less than the delay apart, only the last value is published, exactly once |
| `Theme.FlagText` | src/context/ThemeContext.jsx:16 | a flag serialises to "true" or "false" |
| `Theme.TrimJson` | src/context/ThemeContext.jsx:11 | the trimmed text starts and ends with no JSON whitespace, and a text with none at its ends is left as it is |
| `Theme.TrimJsonKeepsCore` | src/context/ThemeContext.jsx:11 | trimming removes only padding: the result is a contiguous stretch of the text with nothing but JSON whitespace before and after it |
| `Theme.ParseFlag` | src/context/ThemeContext.jsx:11 | a text parses to a flag only if, without the JSON whitespace around it, it is that flag's serialised text; both serialised texts, padded or not, parse |
| `Theme.PaddedFlagsParse` | src/context/ThemeContext.jsx:11 | boolean literals padded with JSON whitespace parse to their flag, and whitespace alone does not parse |
| `Theme.InitialDarkMode` | src/context/ThemeContext.jsx:8-12 | with no stored text or an empty one the flag starts false; a stored boolean literal, padded or not, always gives a flag, and a flag read from storage is the one whose text is stored, up to JSON whitespace |
| `Theme.FlagRoundTrip` | src/context/ThemeContext.jsx:11-16 | parsing a serialised flag gives it back, and only its own text, up to JSON whitespace, parses to it |
| `Theme.ReloadRestoresFlag` | src/context/ThemeContext.jsx:8-17 | a stored flag is what the next load reads; with nothing stored the flag starts false |
| `Theme.ThemeProvider.constructor` | src/context/ThemeContext.jsx:8-17 | the flag is the stored value when present, else false, and the mount effect writes it back |
| `Theme.ThemeProvider.ToggleDarkMode` | src/context/ThemeContext.jsx:15-22 | the flag is negated, "darkMode" holds its new text, and no other key changes |
| `Theme.ThemeProvider.ToggleTwice` | src/context/ThemeContext.jsx:20-22 | toggling twice restores the flag and the storage |
| `Auth.AuthProvider.constructor` | src/context/AuthContext.jsx:8 | the user starts empty |
| `Auth.AuthProvider.OnAuthStateChange` | src/context/AuthContext.jsx:14-34 | a sign-in with a session user looks the row up by that id and, when found, sets the user and stores "userInfo"; a failed lookup or a missing session user changes nothing; a sign-out clears the user and removes "userInfo"; other events change nothing; no other key ever changes |
| `Auth.AuthProvider.SignInThenOut` | src/context/AuthContext.jsx:17-33 | a sign-in followed by a sign-out leaves no user and only "userInfo" removed from storage |

## Left out

- HTTP requests are not modelled: URLs, headers, the bearer token, JSON decoding and the response shape. Each response is an input, either an error or the parsed page.
- The hosted authentication client is not modelled: `signUp`, `login`, the row query, OAuth redirects (`src/pages/Login.jsx:64-86`) and `AuthCallback.jsx`. Their outcomes are inputs.
- `IntersectionObserver`, its margin and threshold, and observer (un)registration are not modelled. An intersection is an event that the model delivers only while the observer would be installed.
- `setTimeout`/`clearTimeout` become abstract ticks. React effect scheduling and stale closures are not modelled.
- Overlapping requests are not modelled. Each response is applied as one atomic step, so a stale response landing after a newer one is outside the model.
- All rendering is left out: cards, sliders, skeletons, lazy images, navigation, layouts, alerts, and navigation other than the returned `toLogin`/`toHome` flags.
- `console` logging and the `alert` calls on sign-up are left out.
- Cached search lists are kept as lists. Their JSON text in session storage and the `JSON.parse` round trip are not modelled.
- `Theme.ThemeProvider.constructor` requires the stored "darkMode" text to be absent, empty, or "true" or "false" with optional JSON whitespace around it. The provider itself writes only "true" and "false". Any other non-empty text makes `JSON.parse` throw or yield a value that is not a boolean, and the model does not cover that.
- `Auth.AuthProvider.constructor` takes `JSON.stringify` of a user row as a function parameter. The text format is not modelled.
- Whitespace for the e-mail check is the ECMAScript `\s` set, listed character by character in `FormRules.IsWhitespace`. Other Unicode semantics (normalisation, surrogate pairs) are not modelled.
- `UserContext.jsx`, the mount-time read of "userInfo" into a second user slot, is not part of this model. The login page's `user` field stands for the slot that `setUser` writes.
- `MovieList.jsx` and `MovieDetail.jsx` fetch and render only. The adult filter in `MovieList.jsx` is the same as `SearchResult.SafeMovies`.
- `Signup.SignupPage.Change` accepts the error-only key `FormError` as a field name and leaves the form unchanged for it. The page has no input of that name.
