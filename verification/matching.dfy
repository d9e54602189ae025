/** Deciding whether a catalogue result is the watched book. */
module Matching {
  import opened Wrappers
  import opened Text
  import opened Catalogue

  /** Both titles are lower-cased, then stripped, before comparison. */
  function Normalize(title: string): string
  {
    Strip(Lower(title))
  }

  /** `title_matches`: case-insensitive substring containment in either direction. */
  function TitleMatches(searchTitle: string, resultTitle: string): bool
  {
    var a := Normalize(searchTitle);
    var b := Normalize(resultTitle);
    Contains(b, a) || Contains(a, b)
  }

  lemma TitleMatchesSymmetric(a: string, b: string)
    ensures TitleMatches(a, b) == TitleMatches(b, a)
  {
  }

  /** Titles that normalize to the same string always match; in particular every
      title matches itself. */
  lemma SameNormalFormMatches(a: string, b: string)
    requires Normalize(a) == Normalize(b)
    ensures TitleMatches(a, b)
  {
    ContainsSelfAndEmpty(Normalize(a), "");
  }

  /** The accepted weakness of the matcher: a blank (empty or all-whitespace)
      title matches every result. */
  lemma BlankTitleMatchesEverything(a: string, b: string)
    requires Normalize(a) == ""
    ensures TitleMatches(a, b)
  {
    ContainsSelfAndEmpty("", Normalize(b));
  }

  /** Letter case of the watched title plays no part. */
  lemma TitleMatchesIgnoresCase(a: string, b: string)
    ensures TitleMatches(Lower(a), b) == TitleMatches(a, b)
  {
    LowerIdempotent(a);
  }

  lemma DuneMatchesDuneMessiah()
    ensures TitleMatches("Dune", "Dune Messiah")
  {
    assert Lower("Dune") == "dune";
    assert Lower("Dune Messiah") == "dune messiah";
    assert Normalize("Dune") == "dune";
    assert Normalize("Dune Messiah") == "dune messiah";
    assert OccursAt("dune", "dune messiah", 0);
  }

  lemma TheHobbitMatchesHobbit()
    ensures TitleMatches("The Hobbit", "hobbit")
  {
    assert Lower("The Hobbit") == "the hobbit";
    assert Lower("hobbit") == "hobbit";
    assert Normalize("The Hobbit") == "the hobbit";
    assert Normalize("hobbit") == "hobbit";
    assert OccursAt("hobbit", "the hobbit", 4);
  }

  lemma FooDoesNotMatchBar()
    ensures !TitleMatches("Foo", "Bar")
  {
    assert Lower("Foo") == "foo";
    assert Lower("Bar") == "bar";
    assert Normalize("Foo") == "foo";
    assert Normalize("Bar") == "bar";
    assert "bar"[0..3] != "foo";
    assert "foo"[0..3] != "bar";
  }

  /** A result counts as the watched book only when its title matches and the
      library owns it; availability is not consulted. */
  predicate Genuine(title: string, item: Item)
  {
    TitleMatches(title, item.title) && item.isOwned
  }

  /** Position of the first genuine match in `items`, if there is one. */
  function MatchIndex(title: string, items: seq<Item>): (r: Option<nat>)
    ensures r.Some? ==> r.value < |items|
    decreases |items|
  {
    if items == [] then None
    else if Genuine(title, items[0]) then Some(0)
    else match MatchIndex(title, items[1..])
      case Some(j) => Some(j + 1)
      case None => None
  }

  /** `MatchIndex` finds the first genuine match, and finds none exactly when no
      result is a genuine match. */
  lemma {:induction false} MatchIndexSpec(title: string, items: seq<Item>)
    ensures var r := MatchIndex(title, items);
      && (r.Some? ==> Genuine(title, items[r.value]))
      && (r.Some? ==> forall k :: 0 <= k < r.value ==> !Genuine(title, items[k]))
      && (r.None? <==> forall k :: 0 <= k < |items| ==> !Genuine(title, items[k]))
    decreases |items|
  {
    if items != [] && !Genuine(title, items[0]) {
      MatchIndexSpec(title, items[1..]);
      assert forall k :: 1 <= k < |items| ==> items[k] == items[1..][k - 1];
    }
  }

  /** The first genuine match itself. */
  function FirstMatch(title: string, items: seq<Item>): Option<Item>
  {
    match MatchIndex(title, items)
    case Some(j) => Some(items[j])
    case None => None
  }

  /** Two result lists that agree on every title and ownership flag give the same
      match position, whatever their copy counts and availability. */
  lemma {:induction false} MatchIgnoresAvailability(title: string, items: seq<Item>, other: seq<Item>)
    requires |items| == |other|
    requires forall k :: 0 <= k < |items| ==>
               items[k].title == other[k].title && items[k].isOwned == other[k].isOwned
    ensures MatchIndex(title, items) == MatchIndex(title, other)
    decreases |items|
  {
    if items != [] {
      MatchIgnoresAvailability(title, items[1..], other[1..]);
    }
  }

  /** The scan inside the check loop: walks the results in order and stops at the
      first genuine match. */
  method FindMatch(title: string, items: seq<Item>) returns (matched: Option<Item>)
    ensures matched == FirstMatch(title, items)
  {
    MatchIndexSpec(title, items);
    matched := None;
    for k := 0 to |items|
      invariant forall j :: 0 <= j < k ==> !Genuine(title, items[j])
    {
      var item := items[k];
      if TitleMatches(title, item.title) && item.isOwned {
        matched := Some(item);
        break;
      }
    }
  }
}
