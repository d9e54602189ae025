/** The watchlist as a value: its entries and the list logic of `watch`,
    `unwatch` and the "already in catalogue" digest. */
module Watchlist {
  import opened Wrappers
  import opened Text
  import opened Seqs
  import opened Matching

  datatype Status = NotFound | Found

  /** One watched book. `added` and the two optional dates are the formatted
      strings the program stores; `None` is JSON `null`. */
  datatype Entry = Entry(
    title: string,
    author: string,
    library: string,
    added: string,
    lastStatus: Status,
    lastChecked: Option<string>,
    foundDate: Option<string>)

  /** Watch and unwatch identify a book by its lower-cased title. Unlike the
      matcher, they do not strip surrounding whitespace. */
  predicate SameTitle(a: string, b: string)
  {
    Lower(a) == Lower(b)
  }

  /** The entry `watch` appends for a new title. */
  function NewEntry(title: string, author: string, library: string, today: string): Entry
  {
    Entry(title, author, library, today, NotFound, None, None)
  }

  /** The watch key and the matcher disagree on surrounding whitespace: "Dune "
      is a different book to watch than "Dune", yet the two titles match. */
  lemma WatchKeyKeepsWhitespace()
    ensures SameTitle("Dune", "DUNE")
    ensures !SameTitle("Dune", "Dune ")
    ensures TitleMatches("Dune", "Dune ")
  {
    assert Lower("Dune") == "dune" == Lower("DUNE");
    assert Lower("Dune ") == "dune ";
    assert "dune " == "dune" + [' '];
    StripIgnoresTrailingSpace("dune", ' ');
    assert TrimStart("dune") == "dune";
    assert TrimEnd("dune") == "dune";
    SameNormalFormMatches("Dune", "Dune ");
  }

  /** Some entry of `books` already has this title, ignoring case. */
  predicate Watching(books: seq<Entry>, title: string)
  {
    exists k :: 0 <= k < |books| && SameTitle(books[k].title, title)
  }

  /** No two entries share a case-insensitive title. */
  predicate UniqueTitles(books: seq<Entry>)
  {
    forall i, j :: 0 <= i < j < |books| ==> !SameTitle(books[i].title, books[j].title)
  }

  /** The list after `watch title`: unchanged when the title is already watched,
      otherwise with a fresh entry at the end. */
  function Watched(books: seq<Entry>, title: string, author: string, library: string, today: string): seq<Entry>
  {
    if Watching(books, title) then books
    else books + [NewEntry(title, author, library, today)]
  }

  /** What `watch` promises: afterwards the title is watched and the earlier
      entries are untouched; a new title adds exactly one entry, at the end,
      not yet found and never checked; a known title adds nothing. */
  lemma WatchAddsOnce(books: seq<Entry>, title: string, author: string, library: string, today: string)
    ensures var r := Watched(books, title, author, library, today);
      && Watching(r, title)
      && r[..|books|] == books
      && (Watching(books, title) ==> r == books)
      && (!Watching(books, title) ==>
            |r| == |books| + 1
            && r[|books|].title == title && r[|books|].author == author
            && r[|books|].library == library && r[|books|].added == today
            && r[|books|].lastStatus == NotFound
            && r[|books|].lastChecked == None && r[|books|].foundDate == None)
  {
    var r := Watched(books, title, author, library, today);
    if !Watching(books, title) {
      assert SameTitle(r[|books|].title, title);
    }
  }

  /** Watching a title a second time changes nothing, whatever author, library
      and date the second call carries. */
  lemma WatchIdempotent(books: seq<Entry>, title: string, author: string, library: string, today: string,
                        author': string, library': string, today': string)
    ensures var once := Watched(books, title, author, library, today);
            Watched(once, title, author', library', today') == once
  {
    WatchAddsOnce(books, title, author, library, today);
  }

  /** `watch` keeps titles unique. */
  lemma WatchPreservesUniqueTitles(books: seq<Entry>, title: string, author: string, library: string, today: string)
    requires UniqueTitles(books)
    ensures UniqueTitles(Watched(books, title, author, library, today))
  {
    var r := Watched(books, title, author, library, today);
    if !Watching(books, title) {
      forall i, j | 0 <= i < j < |r|
        ensures !SameTitle(r[i].title, r[j].title)
      {
        if j == |books| {
          assert !SameTitle(books[i].title, title);
        }
      }
    }
  }

  /** The filter `unwatch` applies: keep entries with a different lower-cased title. */
  function Other(title: string): Entry -> bool
  {
    (e: Entry) => !SameTitle(e.title, title)
  }

  /** The list after `unwatch title`. */
  function Unwatched(books: seq<Entry>, title: string): seq<Entry>
  {
    Filter(books, Other(title))
  }

  /** `unwatch` removes every entry with the title and keeps every other one. */
  lemma UnwatchRemovesTitle(books: seq<Entry>, title: string)
    ensures forall e :: e in Unwatched(books, title) <==> e in books && !SameTitle(e.title, title)
    ensures !Watching(Unwatched(books, title), title)
  {
    var r := Unwatched(books, title);
    forall k | 0 <= k < |r|
      ensures !SameTitle(r[k].title, title)
    {
      assert r[k] in r;
    }
  }

  /** Its exit status: the list got shorter exactly when the title was watched;
      otherwise the list is unchanged (and `unwatch` exits with 1). */
  lemma UnwatchShrinksIffWatching(books: seq<Entry>, title: string)
    ensures |Unwatched(books, title)| < |books| <==> Watching(books, title)
    ensures !Watching(books, title) ==> Unwatched(books, title) == books
  {
    FilterKeepsAll(books, Other(title));
  }

  /** The filter keeps order: unwatching from a concatenation unwatches from each part. */
  lemma UnwatchKeepsOrder(front: seq<Entry>, back: seq<Entry>, title: string)
    ensures Unwatched(front + back, title) == Unwatched(front, title) + Unwatched(back, title)
  {
    FilterAppend(front, back, Other(title));
  }

  /** Unwatching a title that was just watched for the first time restores the
      list exactly. */
  lemma UnwatchUndoesWatch(books: seq<Entry>, title: string, author: string, library: string, today: string)
    requires !Watching(books, title)
    ensures Unwatched(Watched(books, title, author, library, today), title) == books
  {
    var e := NewEntry(title, author, library, today);
    FilterAppend(books, [e], Other(title));
    UnwatchShrinksIffWatching(books, title);
    assert Filter([e], Other(title)) == [];
  }

  /** `unwatch` keeps titles unique. */
  lemma UnwatchPreservesUniqueTitles(books: seq<Entry>, title: string)
    requires UniqueTitles(books)
    ensures UniqueTitles(Unwatched(books, title))
  {
    FilterPairwise(books, Other(title), (x: Entry, y: Entry) => !SameTitle(x.title, y.title));
  }

  predicate IsFound(e: Entry)
  {
    e.lastStatus == Found
  }

  /** The entries listed as "already in catalogue" after a check. */
  function FoundBooks(books: seq<Entry>): (r: seq<Entry>)
    ensures forall e :: e in r <==> e in books && e.lastStatus == Found
  {
    Filter(books, IsFound)
  }
}
