/** Order-preserving filtering of sequences, the shape of a Python list comprehension
    `[x for x in s if p(x)]`. */
module Seqs {
  import opened Wrappers

  /** The elements of `s` that satisfy `p`, in their original order. */
  function Filter<T(!new)>(s: seq<T>, p: T -> bool): (r: seq<T>)
    ensures |r| <= |s|
    ensures forall x :: x in r <==> x in s && p(x)
    decreases |s|
  {
    if s == [] then []
    else (if p(s[0]) then [s[0]] else []) + Filter(s[1..], p)
  }

  /** Filtering distributes over concatenation, so the relative order of the kept
      elements is the order they had in the input. */
  lemma {:induction false} FilterAppend<T(!new)>(a: seq<T>, b: seq<T>, p: T -> bool)
    ensures Filter(a + b, p) == Filter(a, p) + Filter(b, p)
    decreases |a|
  {
    if a == [] {
      assert a + b == b;
    } else {
      assert (a + b)[1..] == a[1..] + b;
      FilterAppend(a[1..], b, p);
    }
  }

  /** Nothing is dropped exactly when every element satisfies `p`; otherwise the
      result is strictly shorter. */
  lemma {:induction false} FilterKeepsAll<T(!new)>(s: seq<T>, p: T -> bool)
    ensures Filter(s, p) == s <==> forall i :: 0 <= i < |s| ==> p(s[i])
    ensures |Filter(s, p)| < |s| <==> exists i :: 0 <= i < |s| && !p(s[i])
    decreases |s|
  {
    if s != [] {
      FilterKeepsAll(s[1..], p);
      if !p(s[0]) {
        assert |Filter(s, p)| < |s|;
      } else {
        assert forall i :: 1 <= i < |s| ==> s[i] == s[1..][i - 1];
      }
    }
  }

  /** A relation that holds between every earlier and later element of `s`
      still holds between those of any filtering of `s`. */
  lemma {:induction false} FilterPairwise<T(!new)>(s: seq<T>, p: T -> bool, rel: (T, T) -> bool)
    requires forall i, j :: 0 <= i < j < |s| ==> rel(s[i], s[j])
    ensures forall i, j :: 0 <= i < j < |Filter(s, p)| ==> rel(Filter(s, p)[i], Filter(s, p)[j])
    decreases |s|
  {
    if s != [] {
      var tail := s[1..];
      assert forall i, j :: 0 <= i < j < |tail| ==> tail[i] == s[i + 1] && tail[j] == s[j + 1];
      FilterPairwise(tail, p, rel);
      var ft := Filter(tail, p);
      forall x | x in ft
        ensures rel(s[0], x)
      {
        var j :| 0 <= j < |tail| && tail[j] == x;
        assert s[j + 1] == x;
      }
    }
  }

  /** The positions of `flags` that hold, in increasing order: the indices a loop
      over `flags` records when it appends `i` on every true flag. */
  function Positions(flags: seq<bool>): seq<nat>
    decreases |flags|
  {
    if flags == [] then []
    else
      var n := |flags| - 1;
      Positions(flags[..n]) + if flags[n] then [n] else []
  }

  lemma PositionsSnoc(flags: seq<bool>, b: bool)
    ensures Positions(flags + [b]) == Positions(flags) + if b then [|flags|] else []
  {
    assert (flags + [b])[..|flags|] == flags;
  }

  /** Extending a prefix of `flags` by one position. */
  lemma PositionsPrefix(flags: seq<bool>, i: nat)
    requires i < |flags|
    ensures Positions(flags[..i + 1]) == Positions(flags[..i]) + if flags[i] then [i] else []
  {
    assert flags[..i + 1] == flags[..i] + [flags[i]];
    PositionsSnoc(flags[..i], flags[i]);
  }

  /** Exactly the true positions are listed, each once, in increasing order. */
  lemma {:induction false} PositionsSpec(flags: seq<bool>)
    ensures var p := Positions(flags);
      && (forall i :: i in p <==> 0 <= i < |flags| && flags[i])
      && (forall a, b :: 0 <= a < b < |p| ==> p[a] < p[b])
    decreases |flags|
  {
    if flags != [] {
      var n := |flags| - 1;
      var front := Positions(flags[..n]);
      PositionsSpec(flags[..n]);
      assert forall i :: 0 <= i < n ==> flags[..n][i] == flags[i];
      var p := Positions(flags);
      forall a, b | 0 <= a < b < |p|
        ensures p[a] < p[b]
      {
        assert p[a] == front[a];
        assert front[a] in front;
        if b < |front| {
          assert p[b] == front[b];
        }
      }
    }
  }

  /** At most one position per flag is listed, and all of them exactly when every flag holds. */
  lemma {:induction false} PositionsCount(flags: seq<bool>)
    ensures |Positions(flags)| <= |flags|
    ensures |Positions(flags)| == |flags| <==> forall i :: 0 <= i < |flags| ==> flags[i]
    decreases |flags|
  {
    if flags != [] {
      var n := |flags| - 1;
      PositionsCount(flags[..n]);
      assert forall i :: 0 <= i < n ==> flags[..n][i] == flags[i];
    }
  }

  /** Which of the first `n` positions `f` has a value for. */
  function Present<U>(n: nat, f: nat -> Option<U>): (r: seq<bool>)
    ensures |r| == n
  {
    seq(n, (i: nat) => f(i).Some?)
  }

  /** The values `f` yields at positions 0 to n-1, in order, skipping positions
      without one: what a loop over those positions appends to a list. */
  function Collect<U>(n: nat, f: nat -> Option<U>): seq<U>
    decreases n
  {
    if n == 0 then []
    else Collect(n - 1, f) + match f(n - 1) case Some(v) => [v] case None => []
  }

  /** The k-th collected value is the value at the k-th position that has one. */
  lemma {:induction false} CollectIndexed<U>(n: nat, f: nat -> Option<U>)
    ensures var p := Positions(Present(n, f));
      && |Collect(n, f)| == |p|
      && forall k :: 0 <= k < |p| ==> p[k] < n && f(p[k]).Some? && Collect(n, f)[k] == f(p[k]).value
    decreases n
  {
    PositionsSpec(Present(n, f));
    if n > 0 {
      CollectIndexed(n - 1, f);
      var flags := Present(n, f);
      assert flags == Present(n - 1, f) + [flags[n - 1]];
      PositionsSnoc(Present(n - 1, f), flags[n - 1]);
      PositionsSpec(Present(n - 1, f));
    }
  }
}
