/** The specification of one `check` run: what every entry becomes after its
    search, which entries are reported as new finds, and after which entries the
    run pauses. A search outcome is `None` when the request failed. */
module Reconcile {
  import opened Wrappers
  import opened Text
  import opened Catalogue
  import opened Matching
  import opened Watchlist
  import opened Seqs

  /** The clock readings a run takes for one entry: `now`, the check time stamped
      on the entry once its search completes, and `today`, the date recorded if
      the entry becomes found. Every entry has its own pair, since the clock is
      read again for each one (and the run sleeps between searches). */
  datatype Stamp = Stamp(now: string, today: string)

  /** The search query sent for an entry: its title and author joined by a
      space, with surrounding whitespace stripped. */
  function Query(e: Entry): string
  {
    Strip(e.title + " " + e.author)
  }

  /** With no author the query is just the stripped title. */
  lemma QueryWithoutAuthor(e: Entry)
    requires e.author == ""
    ensures Query(e) == Strip(e.title)
  {
    assert e.title + " " + e.author == e.title + [' '];
    StripIgnoresTrailingSpace(e.title, ' ');
  }

  /** The requests a run sends, as (library, query) pairs in watchlist order. */
  function Requests(books: seq<Entry>): seq<(string, string)>
  {
    seq(|books|, i requires 0 <= i < |books| => (books[i].library, Query(books[i])))
  }

  /** An entry after its search: untouched when the search failed; otherwise
      stamped with the check time, found exactly when a genuine match exists, and given
      the date of its own reading as found date on a not-found to found transition. */
  function Refresh(e: Entry, outcome: Option<Response>, stamp: Stamp): Entry
  {
    match outcome
    case None => e
    case Some(resp) =>
      var found := FirstMatch(e.title, resp.items).Some?;
      e.(lastChecked := Some(stamp.now),
         lastStatus := if found then Found else NotFound,
         foundDate := if found && e.lastStatus == NotFound then Some(stamp.today) else e.foundDate)
  }

  /** The result reported alongside an entry that became found in this run. */
  function NewFindAt(e: Entry, outcome: Option<Response>): Option<Item>
  {
    if outcome.Some? && e.lastStatus == NotFound then FirstMatch(e.title, outcome.value.items)
    else None
  }

  /** A failed search leaves the entry exactly as it was and reports nothing. */
  lemma FailedSearchLeavesEntry(e: Entry, stamp: Stamp)
    ensures Refresh(e, None, stamp) == e
    ensures NewFindAt(e, None) == None
  {
  }

  /** A check never edits what the user entered. */
  lemma RefreshKeepsIdentity(e: Entry, outcome: Option<Response>, stamp: Stamp)
    ensures var r := Refresh(e, outcome, stamp);
      r.title == e.title && r.author == e.author && r.library == e.library && r.added == e.added
  {
  }

  /** A completed search records the time and sets the status to found exactly
      when some result is an owned copy whose title matches. */
  lemma SearchDecidesStatus(e: Entry, resp: Response, stamp: Stamp)
    ensures var r := Refresh(e, Some(resp), stamp);
      && r.lastChecked == Some(stamp.now)
      && (r.lastStatus == Found <==> exists k :: 0 <= k < |resp.items| && Genuine(e.title, resp.items[k]))
  {
    MatchIndexSpec(e.title, resp.items);
  }

  /** The found date changes only on a not-found to found transition, where it
      becomes `today` whatever it was before; it is never cleared. */
  lemma FoundDateOnTransition(e: Entry, outcome: Option<Response>, stamp: Stamp)
    ensures var r := Refresh(e, outcome, stamp);
      && (e.lastStatus == NotFound && r.lastStatus == Found ==> r.foundDate == Some(stamp.today))
      && (r.foundDate != e.foundDate ==> e.lastStatus == NotFound && r.lastStatus == Found)
      && (e.foundDate.Some? ==> r.foundDate.Some?)
  {
  }

  /** An entry is a new find exactly when its search succeeded and it went from
      not found to found; the reported item is the first genuine match. */
  lemma NewFindIffTransition(e: Entry, outcome: Option<Response>, stamp: Stamp)
    ensures var r := Refresh(e, outcome, stamp);
      NewFindAt(e, outcome).Some? <==> outcome.Some? && e.lastStatus == NotFound && r.lastStatus == Found
    ensures NewFindAt(e, outcome).Some? ==>
      exists k :: 0 <= k < |outcome.value.items| && NewFindAt(e, outcome).value == outcome.value.items[k]
        && Genuine(e.title, outcome.value.items[k])
        && forall j :: 0 <= j < k ==> !Genuine(e.title, outcome.value.items[j])
  {
    if NewFindAt(e, outcome).Some? {
      MatchIndexSpec(e.title, outcome.value.items);
      var k := MatchIndex(e.title, outcome.value.items).value;
      assert NewFindAt(e, outcome).value == outcome.value.items[k];
    }
  }

  /** Copy counts and availability of the results play no part: results that
      agree on titles and ownership give the same refreshed entry. */
  lemma RefreshIgnoresAvailability(e: Entry, resp: Response, other: Response, stamp: Stamp)
    requires |resp.items| == |other.items|
    requires forall k :: 0 <= k < |resp.items| ==>
               resp.items[k].title == other.items[k].title && resp.items[k].isOwned == other.items[k].isOwned
    ensures Refresh(e, Some(resp), stamp) == Refresh(e, Some(other), stamp)
  {
    MatchIgnoresAvailability(e.title, resp.items, other.items);
  }

  /** One more request: the requests for a longer prefix of the watchlist. */
  lemma RequestsStep(books: seq<Entry>, i: nat)
    requires i < |books|
    ensures Requests(books[..i + 1]) == Requests(books[..i]) + [(books[i].library, Query(books[i]))]
  {
  }

  /** The watchlist after a run: every entry refreshed in place, in order. */
  function Reconciled(books: seq<Entry>, outcomes: seq<Option<Response>>, stamps: seq<Stamp>): (r: seq<Entry>)
    requires |outcomes| == |books| == |stamps|
    ensures |r| == |books|
  {
    seq(|books|, i requires 0 <= i < |books| => Refresh(books[i], outcomes[i], stamps[i]))
  }

  /** Part-way through a run: the first `done` entries of `prev` are refreshed,
      the others untouched. */
  ghost predicate RefreshedUpTo(current: seq<Entry>, prev: seq<Entry>, outcomes: seq<Option<Response>>,
                                stamps: seq<Stamp>, done: nat)
  {
    && |current| == |prev| == |outcomes| == |stamps| && done <= |prev|
    && (forall i :: 0 <= i < done ==> current[i] == Refresh(prev[i], outcomes[i], stamps[i]))
    && (forall i :: done <= i < |prev| ==> current[i] == prev[i])
  }

  lemma RefreshedStep(current: seq<Entry>, prev: seq<Entry>, outcomes: seq<Option<Response>>,
                      stamps: seq<Stamp>, done: nat)
    requires RefreshedUpTo(current, prev, outcomes, stamps, done) && done < |prev|
    ensures RefreshedUpTo(current[done := Refresh(current[done], outcomes[done], stamps[done])],
                          prev, outcomes, stamps, done + 1)
    ensures outcomes[done].None? ==> current[done := Refresh(current[done], outcomes[done], stamps[done])] == current
  {
  }

  lemma RefreshedAll(current: seq<Entry>, prev: seq<Entry>, outcomes: seq<Option<Response>>, stamps: seq<Stamp>)
    requires RefreshedUpTo(current, prev, outcomes, stamps, |prev|)
    ensures current == Reconciled(prev, outcomes, stamps)
  {
  }

  /** A run keeps the list's length and order and every entry's identity, and so
      keeps titles unique. */
  lemma ReconcileKeepsShape(books: seq<Entry>, outcomes: seq<Option<Response>>, stamps: seq<Stamp>)
    requires |outcomes| == |books| == |stamps|
    ensures var r := Reconciled(books, outcomes, stamps);
      && |r| == |books|
      && (forall i :: 0 <= i < |r| ==>
            r[i].title == books[i].title && r[i].author == books[i].author
            && r[i].library == books[i].library && r[i].added == books[i].added)
      && (UniqueTitles(books) ==> UniqueTitles(r))
  {
  }

  /** Each entry whose search completed carries the readings taken for it, not
      those of any other entry: its own check time and, on a not-found to found
      transition, its own date. An entry whose search failed keeps its old stamps. */
  lemma ReconcileStampsEachEntry(books: seq<Entry>, outcomes: seq<Option<Response>>, stamps: seq<Stamp>, i: nat)
    requires |outcomes| == |books| == |stamps| && i < |books|
    ensures var r := Reconciled(books, outcomes, stamps);
      && (outcomes[i].Some? ==> r[i].lastChecked == Some(stamps[i].now))
      && (outcomes[i].Some? && books[i].lastStatus == NotFound && r[i].lastStatus == Found ==>
            r[i].foundDate == Some(stamps[i].today))
      && (outcomes[i].None? ==> r[i] == books[i])
  {
  }

  /** An example: each entry keeps the reading it was given, so two entries given
      readings a second apart carry different check times. */
  lemma EntriesKeepOwnStamps()
    ensures var e := NewEntry("Dune", "", "telaviv", "2024-01-01");
      var f := NewEntry("Emma", "", "telaviv", "2024-01-01");
      var miss := Some(Response(0, []));
      var r := Reconciled([e, f], [miss, miss],
                          [Stamp("2024-02-01T08:00:00", "2024-02-01"), Stamp("2024-02-01T08:00:01", "2024-02-01")]);
      && r[0].lastChecked == Some("2024-02-01T08:00:00")
      && r[1].lastChecked == Some("2024-02-01T08:00:01")
  {
  }

  /** The new-find record of position i of a run, if that entry is a new find. */
  function FindAt(books: seq<Entry>, outcomes: seq<Option<Response>>, stamps: seq<Stamp>, i: nat): Option<(Entry, Item)>
  {
    if i < |books| && |outcomes| == |books| == |stamps| then
      match NewFindAt(books[i], outcomes[i])
      case Some(item) => Some((Refresh(books[i], outcomes[i], stamps[i]), item))
      case None => None
    else None
  }

  function FindsOf(books: seq<Entry>, outcomes: seq<Option<Response>>, stamps: seq<Stamp>): nat -> Option<(Entry, Item)>
  {
    (i: nat) => FindAt(books, outcomes, stamps, i)
  }

  /** One more position of a run adds its new-find record, if any, at the end. */
  lemma FindsStep(books: seq<Entry>, outcomes: seq<Option<Response>>, stamps: seq<Stamp>, i: nat)
    requires |outcomes| == |books| == |stamps| && i < |books|
    ensures Collect(i + 1, FindsOf(books, outcomes, stamps))
      == Collect(i, FindsOf(books, outcomes, stamps))
         + match NewFindAt(books[i], outcomes[i])
           case Some(item) => [(Refresh(books[i], outcomes[i], stamps[i]), item)]
           case None => []
  {
  }

  /** The new finds of a run, as (refreshed entry, matched item) pairs in
      watchlist order. */
  function NewFinds(books: seq<Entry>, outcomes: seq<Option<Response>>, stamps: seq<Stamp>): seq<(Entry, Item)>
    requires |outcomes| == |books| == |stamps|
  {
    Collect(|books|, FindsOf(books, outcomes, stamps))
  }

  /** Which entries of a run are new finds. */
  function NewFindFlags(books: seq<Entry>, outcomes: seq<Option<Response>>): (r: seq<bool>)
    requires |outcomes| == |books|
    ensures |r| == |books|
  {
    seq(|books|, i requires 0 <= i < |books| => NewFindAt(books[i], outcomes[i]).Some?)
  }

  /** The positions of the new finds of a run. */
  function NewFindIndices(books: seq<Entry>, outcomes: seq<Option<Response>>): seq<nat>
    requires |outcomes| == |books|
  {
    Positions(NewFindFlags(books, outcomes))
  }

  /** A position is listed exactly when that entry is a new find, each position
      at most once and in increasing order. */
  lemma NewFindIndicesSpec(books: seq<Entry>, outcomes: seq<Option<Response>>)
    requires |outcomes| == |books|
    ensures var idx := NewFindIndices(books, outcomes);
      && (forall i :: i in idx <==> 0 <= i < |books| && NewFindAt(books[i], outcomes[i]).Some?)
      && (forall a, b :: 0 <= a < b < |idx| ==> idx[a] < idx[b])
  {
    PositionsSpec(NewFindFlags(books, outcomes));
  }

  /** The k-th new find pairs the refreshed entry at the k-th new-find position
      with the first genuine match of its search. */
  lemma NewFindsAreIndexed(books: seq<Entry>, outcomes: seq<Option<Response>>, stamps: seq<Stamp>)
    requires |outcomes| == |books| == |stamps|
    ensures var idx := NewFindIndices(books, outcomes);
      var finds := NewFinds(books, outcomes, stamps);
      && |finds| == |idx|
      && forall k :: 0 <= k < |finds| ==>
           idx[k] < |books|
           && NewFindAt(books[idx[k]], outcomes[idx[k]]).Some?
           && finds[k] == (Refresh(books[idx[k]], outcomes[idx[k]], stamps[idx[k]]),
                           NewFindAt(books[idx[k]], outcomes[idx[k]]).value)
  {
    var f := FindsOf(books, outcomes, stamps);
    CollectIndexed(|books|, f);
    assert Present(|books|, f) == NewFindFlags(books, outcomes);
  }

  /** Every new find is among the "already in catalogue" entries listed after the run. */
  lemma NewFindsAreInDigest(books: seq<Entry>, outcomes: seq<Option<Response>>, stamps: seq<Stamp>)
    requires |outcomes| == |books| == |stamps|
    ensures var finds := NewFinds(books, outcomes, stamps);
      forall k :: 0 <= k < |finds| ==> finds[k].0 in FoundBooks(Reconciled(books, outcomes, stamps))
  {
    NewFindsAreIndexed(books, outcomes, stamps);
    var r := Reconciled(books, outcomes, stamps);
    var idx := NewFindIndices(books, outcomes);
    var finds := NewFinds(books, outcomes, stamps);
    forall k | 0 <= k < |finds|
      ensures finds[k].0 in FoundBooks(r)
    {
      assert finds[k].0 == r[idx[k]];
    }
  }

  /** A book found in one run is not reported again by the next run: a second
      report needs an intervening run in which it was not found. */
  lemma NoRepeatedFind(books: seq<Entry>, first: seq<Option<Response>>, second: seq<Option<Response>>,
                       stamps: seq<Stamp>, i: nat)
    requires |first| == |books| && |second| == |books| == |stamps|
    requires i < |books| && NewFindAt(books[i], first[i]).Some?
    ensures NewFindAt(Reconciled(books, first, stamps)[i], second[i]).None?
  {
  }

  /** Whether the run pauses after each position of a watchlist of `total`
      entries: after every entry whose search completed, except the last one. */
  function PauseFlags(outcomes: seq<Option<Response>>, total: nat): (r: seq<bool>)
    ensures |r| == |outcomes|
  {
    seq(|outcomes|, i requires 0 <= i < |outcomes| => outcomes[i].Some? && i < total - 1)
  }

  /** The positions after which a run pauses. */
  function Pauses(outcomes: seq<Option<Response>>, total: nat): seq<nat>
  {
    Positions(PauseFlags(outcomes, total))
  }

  /** A run pauses after position i exactly when that search succeeded and i is
      not the last position; never twice after one entry. */
  lemma PausesSpec(outcomes: seq<Option<Response>>, total: nat)
    ensures var p := Pauses(outcomes, total);
      && (forall i :: i in p <==> 0 <= i < |outcomes| && outcomes[i].Some? && i + 1 < total)
      && (forall a, b :: 0 <= a < b < |p| ==> p[a] < p[b])
  {
    PositionsSpec(PauseFlags(outcomes, total));
  }

  /** A run over N entries pauses at most N-1 times, and exactly N-1 times when,
      and only when, every search but the last one succeeded. */
  lemma PauseCount(outcomes: seq<Option<Response>>)
    requires |outcomes| >= 1
    ensures var n := |outcomes|;
      && |Pauses(outcomes, n)| <= n - 1
      && (|Pauses(outcomes, n)| == n - 1 <==> forall i :: 0 <= i < n - 1 ==> outcomes[i].Some?)
  {
    var n := |outcomes|;
    var flags := PauseFlags(outcomes, n);
    var front := PauseFlags(outcomes[..n - 1], n);
    assert flags == front + [false];
    assert forall i :: 0 <= i < n - 1 ==> front[i] == outcomes[i].Some?;
    PositionsSnoc(front, false);
    PositionsCount(front);
  }

  /** A run where every search succeeds pauses exactly N-1 times. */
  lemma AllSucceededPausesBetweenEach(outcomes: seq<Option<Response>>)
    requires |outcomes| >= 1
    requires forall i :: 0 <= i < |outcomes| ==> outcomes[i].Some?
    ensures |Pauses(outcomes, |outcomes|)| == |outcomes| - 1
  {
    PauseCount(outcomes);
  }

  /** The first documented scenario: a not-yet-found "Dune" whose search returns
      one owned, available copy set is found today and reported once, with its
      three copies. */
  lemma DuneScenario(stamp: Stamp)
    ensures var e := NewEntry("Dune", "", "telaviv", "2024-01-01");
      var item := Item("Dune", "Frank Herbert", true, 3, true, 1);
      var after := e.(lastStatus := Found, lastChecked := Some(stamp.now), foundDate := Some(stamp.today));
      && Reconciled([e], [Some(Response(1, [item]))], [stamp]) == [after]
      && NewFinds([e], [Some(Response(1, [item]))], [stamp]) == [(after, item)]
      && NewFinds([e], [Some(Response(1, [item]))], [stamp])[0].1.ownedCopies == 3
  {
    var e := NewEntry("Dune", "", "telaviv", "2024-01-01");
    var item := Item("Dune", "Frank Herbert", true, 3, true, 1);
    SameNormalFormMatches("Dune", "Dune");
    assert Genuine(e.title, item);
    assert FirstMatch(e.title, [item]) == Some(item);
    assert [e][..0] == [];
  }

  /** The found date is not a "first discovered" date: a book found, then missing,
      then found again carries the date of the latest discovery. */
  lemma FoundDateIsOverwritten()
    ensures var e0 := NewEntry("Dune", "", "telaviv", "2024-01-01");
      var hit := Some(Response(1, [Item("Dune", "Frank Herbert", true, 3, true, 1)]));
      var miss := Some(Response(0, []));
      var e1 := Refresh(e0, hit, Stamp("2024-02-01T08:00:00", "2024-02-01"));
      var e2 := Refresh(e1, miss, Stamp("2024-03-01T08:00:00", "2024-03-01"));
      var e3 := Refresh(e2, hit, Stamp("2024-04-01T08:00:00", "2024-04-01"));
      && e1.foundDate == Some("2024-02-01")
      && e2.lastStatus == NotFound && e2.foundDate == Some("2024-02-01")
      && e3.lastStatus == Found && e3.foundDate == Some("2024-04-01")
  {
    var item := Item("Dune", "Frank Herbert", true, 3, true, 1);
    SameNormalFormMatches("Dune", "Dune");
    assert FirstMatch("Dune", [item]) == Some(item);
  }
}
