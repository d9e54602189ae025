/** The loaded watchlist document and the commands that change it in place.
    Loading and saving the JSON file, and printing, are not modelled: the
    document is built from the entries read and its `books` are what is saved. */
module Store {
  import opened Wrappers
  import opened Text
  import opened Catalogue
  import opened Matching
  import opened Watchlist
  import opened Reconcile
  import opened Seqs

  class Document {
    /** `watchlist["books"]`. */
    var books: seq<Entry>

    /** A document holding the entries read from the watchlist file (none when
        the file does not exist). */
    constructor (books: seq<Entry>)
      ensures this.books == books
    {
      this.books := books;
    }

    /** `cmd_watch`: scans for the title, ignoring case, and appends a new entry
        when it is not there. `added` tells which message is printed; the exit
        status is 0 either way. */
    method Watch(title: string, author: string, library: string, today: string) returns (added: bool)
      modifies this
      ensures added <==> !Watching(old(books), title)
      ensures books == Watched(old(books), title, author, library, today)
    {
      for k := 0 to |books|
        invariant books == old(books)
        invariant forall j :: 0 <= j < k ==> !SameTitle(books[j].title, title)
      {
        if Lower(books[k].title) == Lower(title) {
          return false;
        }
      }
      books := books + [NewEntry(title, author, library, today)];
      added := true;
    }

    /** `cmd_unwatch`: keeps the entries with a different title and exits with 0
        when something was removed, 1 when nothing was (the list is then unchanged). */
    method Unwatch(title: string) returns (exitCode: int)
      modifies this
      ensures books == Unwatched(old(books), title)
      ensures exitCode == 0 <==> Watching(old(books), title)
      ensures exitCode == 1 <==> books == old(books)
      ensures exitCode == 0 || exitCode == 1
    {
      UnwatchShrinksIffWatching(books, title);
      var before := |books|;
      books := Unwatched(books, title);
      if |books| < before {
        exitCode := 0;
      } else {
        exitCode := 1;
      }
    }

    /** The body of the check loop for entry `idx` once its search returned
        `resp`: finds the first genuine match, stamps the entry with the check
        time of `stamp` and updates its status and found date in place. Returns the matched item
        when the entry has just become found. */
    method Record(idx: nat, resp: Response, stamp: Stamp) returns (newFind: Option<Item>)
      requires idx < |books|
      modifies this
      ensures books == old(books)[idx := Refresh(old(books)[idx], Some(resp), stamp)]
      ensures newFind == NewFindAt(old(books)[idx], Some(resp))
    {
      var title := books[idx].title;
      var prevStatus := books[idx].lastStatus;
      var matched := FindMatch(title, resp.items);
      books := books[idx := books[idx].(lastChecked := Some(stamp.now))];
      newFind := None;
      if matched.Some? && prevStatus == NotFound {
        books := books[idx := books[idx].(lastStatus := Found, foundDate := Some(stamp.today))];
        newFind := matched;
      } else if matched.Some? {
        books := books[idx := books[idx].(lastStatus := Found)];
      } else {
        books := books[idx := books[idx].(lastStatus := NotFound)];
      }
    }

    /** The reconciliation loop of `cmd_check`. `outcomes[i]` is what the search
        for entry i returned (`None` when it failed) and `stamps[i]` the clock
        readings taken for it; a failed search uses no reading. Returns the new finds and the (library, query)
        requests sent; `pausedAfter` lists the positions after which the loop
        sleeps for the rate limit. */
    method Check(outcomes: seq<Option<Response>>, stamps: seq<Stamp>)
      returns (newFinds: seq<(Entry, Item)>, requests: seq<(string, string)>, ghost pausedAfter: seq<nat>)
      requires |outcomes| == |books| == |stamps|
      modifies this
      ensures books == Reconciled(old(books), outcomes, stamps)
      ensures newFinds == NewFinds(old(books), outcomes, stamps)
      ensures requests == Requests(old(books))
      ensures pausedAfter == Pauses(outcomes, |old(books)|)
    {
      newFinds, requests, pausedAfter := [], [], [];
      ghost var prev := books;
      ghost var finds := FindsOf(prev, outcomes, stamps);
      ghost var pauses := PauseFlags(outcomes, |prev|);
      var total := |books|;
      for idx := 0 to total
        invariant total == |prev|
        invariant RefreshedUpTo(books, prev, outcomes, stamps, idx)
        invariant newFinds == Collect(idx, finds)
        invariant requests == Requests(prev[..idx])
        invariant pausedAfter == Positions(pauses[..idx])
      {
        RefreshedStep(books, prev, outcomes, stamps, idx);
        RequestsStep(prev, idx);
        PositionsPrefix(pauses, idx);
        FindsStep(prev, outcomes, stamps, idx);
        var book := books[idx];
        var query := Query(book);
        requests := requests + [(book.library, query)];
        var data := outcomes[idx];
        if data.None? {
          continue;
        }
        var found := Record(idx, data.value, stamps[idx]);
        if found.Some? {
          newFinds := newFinds + [(books[idx], found.value)];
        }
        if idx < total - 1 {
          pausedAfter := pausedAfter + [idx];
        }
      }
      assert pauses[..total] == pauses;
      assert prev[..total] == prev;
      RefreshedAll(books, prev, outcomes, stamps);
    }
  }
}
