# libby-book-monitor in Dafny

A verified model of the watchlist logic of `libby-book-monitor`, a command-line tool that tracks whether books have been added to a library's Libby/OverDrive catalogue. The model covers:

- the title matcher (`title_matches`);
- the genuine-match rule: the title matches and the library owns a copy;
- the list logic of `watch` and `unwatch`;
- the reconciliation loop of `check`. It refreshes every entry in place, collects the new finds and decides after which entries to pause for the rate limit;
- the "already in catalogue" digest;
- data-directory and watchlist-file resolution, the default configuration, and the defaults `watch` applies to omitted arguments.

Modules:

- `Text`: ASCII `lower()`, Python's `strip()` with Python's set of whitespace characters, and the substring test `in`, each with its specification.
- `Catalogue`: search results.
- `Matching`: `title_matches`, the genuine-match rule, the first-match scan `FindMatch`.
- `Settings`: paths, configuration, argument defaults.
- `Watchlist`: entries, and `watch`/`unwatch` as functions over the entry sequence.
- `Reconcile`: the specification of one `check` run.
- `Store`: class `Document` holding `watchlist["books"]`, with methods `Watch`, `Unwatch` and `Check` that update it in place and are proved against the specification functions.
- `Seqs`: order-preserving filtering, and the positions and values a loop collects.

Effects become parameters:

- A catalogue search is an oracle. `Check` takes one `Option<Response>` per entry, `None` for a failed request, and returns the `(library, query)` requests it sends.
- The program reads the clock afresh for every entry whose search completes: once for the check time (line 286) and, on a not-found to found transition, once more for the found date (line 291), with a one-second sleep (line 299) after each completed search except the last; the `continue` at line 274 skips it after a failed one (`Reconcile.PausesSpec`). `Check` therefore takes one `Stamp(now, today)` per entry, the two formatted readings taken for that entry. A failed search uses none.
- Each `time.sleep` is recorded in a ghost list of the positions after which the loop pauses.

## Model

| member | source | states |
|---|---|---|
| Text.LowerChar | scripts/libby-book-monitor.py:118-119 | a case-folded character is never an upper-case ASCII letter, and folding keeps whitespace as whitespace |
| Text.LowerIdempotent | scripts/libby-book-monitor.py:118 | lower-casing twice is lower-casing once |
| Text.TrimStartSpec | scripts/libby-book-monitor.py:118-119 | left stripping leaves a suffix, removes only whitespace, and the rest does not start with whitespace |
| Text.TrimEndSpec | scripts/libby-book-monitor.py:118-119 | right stripping leaves a prefix, removes only whitespace, and the rest does not end with whitespace |
| Text.StripIsTrimmedSlice | scripts/libby-book-monitor.py:118-119 | `strip()` returns a slice of its input framed only by whitespace, with no whitespace at either end |
| Text.StripIdempotent | scripts/libby-book-monitor.py:118-119 | stripping twice is stripping once |
| Text.StripIgnoresTrailingSpace | scripts/libby-book-monitor.py:270 | appending a whitespace character does not change the stripped string |
| Text.ContainsSpec | scripts/libby-book-monitor.py:120 | the substring scan is true exactly when the needle occurs at some position of the haystack |
| Text.ContainsSelfAndEmpty | scripts/libby-book-monitor.py:120 | every string contains itself and the empty string |
| Matching.TitleMatchesSymmetric | scripts/libby-book-monitor.py:112-120 | `title_matches(a, b) == title_matches(b, a)` |
| Matching.SameNormalFormMatches | scripts/libby-book-monitor.py:118-120 | titles equal after lower-casing and stripping always match, so every title matches itself |
| Matching.BlankTitleMatchesEverything | scripts/libby-book-monitor.py:113-120 | a title that is empty after stripping matches every result, the false positive the docstring accepts |
| Matching.TitleMatchesIgnoresCase | scripts/libby-book-monitor.py:118 | lower-casing the watched title first changes nothing |
| Matching.DuneMatchesDuneMessiah | scripts/libby-book-monitor.py:112-120 | "Dune" matches "Dune Messiah" |
| Matching.TheHobbitMatchesHobbit | scripts/libby-book-monitor.py:112-120 | "The Hobbit" matches "hobbit" |
| Matching.FooDoesNotMatchBar | scripts/libby-book-monitor.py:112-120 | "Foo" does not match "Bar" |
| Matching.MatchIndex | scripts/libby-book-monitor.py:278-284 | the position of the first genuine match, when there is one, is a position of the result list |
| Matching.MatchIndexSpec | scripts/libby-book-monitor.py:278-284 | that position holds a genuine match (title matches and owned) and no earlier result is one; there is none exactly when no result is a genuine match |
| Matching.MatchIgnoresAvailability | scripts/libby-book-monitor.py:279-281 | result lists that agree on titles and ownership have the same first match, whatever their copy counts and availability |
| Matching.FindMatch | scripts/libby-book-monitor.py:276-284 | the in-order scan that breaks at the first genuine match returns exactly that first match, or none |
| Settings.DataDir | scripts/libby-book-monitor.py:33-40 | the data directory is the non-empty flag, else the non-empty environment variable, else the default under home; it is never empty |
| Settings.WatchlistFileName | scripts/libby-book-monitor.py:43-47 | the file name starts with `watchlist` and ends with `.json` |
| Settings.ProfilesAreDisjoint | scripts/libby-book-monitor.py:43-47 | two profile arguments give the same watchlist file name exactly when both are absent or empty, or both name the same profile |
| Settings.WatchLibrary | scripts/libby-book-monitor.py:168 | a non-empty `--library` wins; otherwise the configured default library is used whenever the key is present, even an empty one, and the fallback `telaviv` only when it is absent; the library is empty exactly when there is no flag and the configured default is "" |
| Settings.LibraryFlagOverridesConfig | scripts/libby-book-monitor.py:168 | with a non-empty `--library` the configuration plays no part |
| Settings.WatchAuthor | scripts/libby-book-monitor.py:170 | a non-empty `--author` is recorded verbatim, and the recorded author is empty exactly when none was given |
| Settings.DefaultLibraryIsConfigured | scripts/libby-book-monitor.py:56-61 | under the default configuration, a watch without `--library` uses a library the configuration lists |
| Seqs.Filter | scripts/libby-book-monitor.py:203-205 | a comprehension filter never lengthens the list and keeps exactly the elements that pass the test |
| Seqs.FilterAppend | scripts/libby-book-monitor.py:203-205 | filtering distributes over concatenation, so kept elements stay in their original order |
| Seqs.FilterKeepsAll | scripts/libby-book-monitor.py:207 | the filter drops nothing exactly when every element passes, and otherwise returns a strictly shorter list |
| Watchlist.WatchKeyKeepsWhitespace | scripts/libby-book-monitor.py:173 | the watch key ignores case but not whitespace: "Dune " is a new title next to "Dune", yet the two match |
| Watchlist.WatchAddsOnce | scripts/libby-book-monitor.py:172-187 | after `watch` the title is watched and earlier entries are untouched; a known title leaves the list unchanged; a new one appends exactly one entry: not found, never checked, no found date |
| Watchlist.WatchIdempotent | scripts/libby-book-monitor.py:172-187 | watching a title a second time changes nothing, whatever author, library and date it carries |
| Watchlist.WatchPreservesUniqueTitles | scripts/libby-book-monitor.py:172-187 | `watch` keeps case-insensitive titles unique |
| Watchlist.UnwatchRemovesTitle | scripts/libby-book-monitor.py:203-205 | after `unwatch` an entry remains exactly when it was there and its lower-cased title differs; the title is no longer watched |
| Watchlist.UnwatchShrinksIffWatching | scripts/libby-book-monitor.py:202-213 | the list gets shorter exactly when the title was watched; otherwise it is unchanged |
| Watchlist.UnwatchKeepsOrder | scripts/libby-book-monitor.py:203-205 | unwatching from a concatenation unwatches from each part, so order is preserved |
| Watchlist.UnwatchUndoesWatch | scripts/libby-book-monitor.py:177-205 | unwatching a title just watched for the first time restores the list exactly |
| Watchlist.UnwatchPreservesUniqueTitles | scripts/libby-book-monitor.py:203-205 | `unwatch` keeps titles unique |
| Watchlist.FoundBooks | scripts/libby-book-monitor.py:326 | the digest holds exactly the entries whose status is found |
| Reconcile.QueryWithoutAuthor | scripts/libby-book-monitor.py:270 | with an empty author the query is the stripped title |
| Reconcile.FailedSearchLeavesEntry | scripts/libby-book-monitor.py:271-274 | a failed search leaves the entry unchanged and reports no new find |
| Reconcile.RefreshKeepsIdentity | scripts/libby-book-monitor.py:286-296 | a check never changes title, author, library or added date |
| Reconcile.SearchDecidesStatus | scripts/libby-book-monitor.py:276-296 | a completed search sets `last_checked` to that entry's check time, and the status is found exactly when some result is a genuine match |
| Reconcile.FoundDateOnTransition | scripts/libby-book-monitor.py:289-296 | the found date becomes that entry's date reading on every not-found to found transition, changes at no other time, and is never cleared |
| Reconcile.NewFindIffTransition | scripts/libby-book-monitor.py:289-292 | an entry is a new find exactly when its search succeeded and it went from not found to found; the item reported is the first genuine match |
| Reconcile.RefreshIgnoresAvailability | scripts/libby-book-monitor.py:279-281 | copy counts and availability play no part in the refreshed entry |
| Reconcile.Reconciled | scripts/libby-book-monitor.py:264-296 | a run keeps the number of entries |
| Reconcile.ReconcileKeepsShape | scripts/libby-book-monitor.py:264-296 | a run keeps length, order and every entry's identity fields, and so keeps titles unique |
| Reconcile.ReconcileStampsEachEntry | scripts/libby-book-monitor.py:271-291 | each entry whose search completed gets its own check time, and on a transition its own date; an entry whose search failed is unchanged |
| Reconcile.EntriesKeepOwnStamps | scripts/libby-book-monitor.py:286-299 | an example: each entry keeps the reading it was given, so two entries given readings a second apart carry different check times |
| Reconcile.NewFindIndicesSpec | scripts/libby-book-monitor.py:289-292 | a position is a new-find position exactly when that entry is a new find; each position at most once, in increasing order |
| Reconcile.NewFindsAreIndexed | scripts/libby-book-monitor.py:261-292 | the k-th new find pairs the refreshed entry at the k-th new-find position with its first genuine match, so new finds come in watchlist order |
| Reconcile.NewFindsAreInDigest | scripts/libby-book-monitor.py:326 | every new find of a run is listed in the "already in catalogue" digest after it |
| Reconcile.NoRepeatedFind | scripts/libby-book-monitor.py:289-294 | a book reported as a new find is not reported again by the next run |
| Reconcile.PausesSpec | scripts/libby-book-monitor.py:298-299 | the run pauses after position i exactly when that search succeeded and i is not the last position; never twice after one entry |
| Reconcile.PauseCount | scripts/libby-book-monitor.py:262-299 | a run over N entries pauses at most N-1 times, and exactly N-1 times iff every search but the last succeeded |
| Reconcile.AllSucceededPausesBetweenEach | scripts/libby-book-monitor.py:298-299 | when every search succeeds there are exactly N-1 pauses |
| Reconcile.DuneScenario | scripts/libby-book-monitor.py:264-296 | a not-found "Dune" whose search returns an owned "Dune" with 3 copies becomes found, with its check time and date as stamps, and is the single new find, with 3 copies |
| Reconcile.FoundDateIsOverwritten | scripts/libby-book-monitor.py:289-291 | found, then missing, then found again: the found date is that of the latest discovery, not the first |
| Store.Document.constructor | scripts/libby-book-monitor.py:70-77 | the document holds the entries read |
| Store.Document.Watch | scripts/libby-book-monitor.py:172-187 | the scan-then-append leaves `Watched(old books, …)` and reports whether it appended (only when the title was not watched) |
| Store.Document.Unwatch | scripts/libby-book-monitor.py:202-213 | the list becomes the filter `Unwatched(old books, title)`; the exit code is 0 iff the title was watched and 1 iff the list is unchanged |
| Store.Document.Record | scripts/libby-book-monitor.py:276-296 | updating entry idx in place after a successful search yields `Refresh` of that entry and returns the new-find item, if any |
| Store.Document.Check | scripts/libby-book-monitor.py:261-301 | the loop leaves `Reconciled(old books, outcomes, stamps)`, each entry refreshed with its own readings, returns `NewFinds(...)` and the requests `(library, strip(title + " " + author))` in order, and pauses at `Pauses(outcomes, N)` |

## Behaviour the model follows

- The found date records the latest not-found to found transition, not the first discovery. Line 291 overwrites it on every such transition and nothing clears it (`Reconcile.FoundDateIsOverwritten`). A "monotone" found date would be a different program.
- A failed search skips the rate-limit pause (`continue` at line 274). A run therefore pauses N-1 times only when every search but the last succeeds. It does not pause N-1 times unconditionally (`Reconcile.PauseCount`).
- `watch`/`unwatch` compare lower-cased titles without stripping, while the matcher also strips (`Watchlist.WatchKeyKeepsWhitespace`).

## Left out

- `search_library`: HTTP, URL encoding, the user agent, the timeout and the error messages. A search is an oracle `Option<Response>`, one per entry, `None` for any failure.
- `load_config`, `load_watchlist`, `save_watchlist`: directory creation and JSON files. The model works on the in-memory entry sequence. A missing watchlist file is a `Document` built from no entries; the default configuration is the constant `Settings.DefaultConfig`. Saving the books after `watch`, `unwatch` and `check` is not modelled.
- `datetime.now()` and `time.sleep`: the clock readings are the per-entry `Stamp` parameters, and nothing relates the readings of different entries (for instance, that they increase). A pause is recorded in a ghost list, and its duration is not modelled.
- All printing, including `cmd_search`, `cmd_list`, the messages of `watch`/`unwatch` and the report of `check` apart from the digest filter at line 326.
- `main`, argparse dispatch, `Path.home()` and `os.environ`. The home directory and the environment value are parameters of `Settings.DataDir`.
- Text.Lower: folds ASCII letters only, because full Unicode `str.lower()` tables are out of scope.
- Settings.Join: path joining is string concatenation with `/`, without `pathlib` normalisation.
- Catalogue.Item: fields missing from a result record are taken to hold their defaults already ("" / false / 0). Truthiness of non-boolean `isOwned` values is not modelled.
- Catalogue.Response: a well-formed search reply is assumed. A reply whose `items` is JSON `null` (line 278), or an item whose `title` is `null` (`None.lower()`, lines 279 and 118), raises an exception that `cmd_check` does not catch. The run then aborts before `save_watchlist` (line 301) and loses every refresh of that run. The typed `Response`/`Item` cannot express such a reply, so the model does not capture this abort.
- Watchlist.Entry: `last_status` is one of the two values the program writes. A hand-edited file holding another string is out of scope.
- The `item is None` fallbacks in the notify report cannot arise, because a new find always carries its matched item. They are printing only.
