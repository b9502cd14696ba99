/**
 * Ordered tables of rows, each row carrying the index it had in the table as
 * first loaded. Every table the validator works on is obtained from the loaded
 * table by dropping rows, so its labels stay strictly increasing; a table with
 * increasing labels is determined by the set of its rows, which is how
 * "a subsequence in original order" is stated below.
 */
module Tables {

  /** A row together with its row index. */
  datatype Labelled<T> = Labelled(index: nat, rec: T)

  /** The labels increase strictly along the table (so none repeats). */
  predicate Increasing<T>(s: seq<Labelled<T>>)
  {
    forall i, j :: 0 <= i < j < |s| ==> s[i].index < s[j].index
  }

  /** The set of labels of a table. */
  function LabelSet<T(==,!new)>(s: seq<Labelled<T>>): (r: set<nat>)
    ensures forall l :: l in r <==> exists x :: x in s && x.index == l
  {
    set x | x in s :: x.index
  }

  /** A freshly loaded table: row `i` gets index `i`. */
  function LabelRows<T>(t: seq<T>): (r: seq<Labelled<T>>)
    ensures |r| == |t|
    ensures forall i :: 0 <= i < |t| ==> r[i] == Labelled(i, t[i])
    ensures Increasing(r)
  {
    seq(|t|, i requires 0 <= i < |t| => Labelled(i, t[i]))
  }

  lemma LabelRowsMember<T(!new)>(t: seq<T>, x: Labelled<T>)
    ensures x in LabelRows(t) <==> x.index < |t| && t[x.index] == x.rec
  {
    var r := LabelRows(t);
    if x.index < |t| && t[x.index] == x.rec {
      assert r[x.index] == x;
    }
  }

  /** A labelled row belongs to a freshly loaded table exactly when that table holds it at its index. */
  lemma LabelRowsMemberAll<T(!new)>(t: seq<T>)
    ensures forall x :: x in LabelRows(t) <==> x.index < |t| && t[x.index] == x.rec
  {
    forall x ensures x in LabelRows(t) <==> x.index < |t| && t[x.index] == x.rec {
      LabelRowsMember(t, x);
    }
  }

  lemma HeadBelowRest<T(!new)>(s: seq<Labelled<T>>)
    requires Increasing(s) && |s| > 0
    ensures forall x :: x in s[1..] ==> s[0].index < x.index
  {
    forall x | x in s[1..] ensures s[0].index < x.index {
      var k :| 0 <= k < |s[1..]| && s[1..][k] == x;
      assert s[k + 1] == x;
    }
  }

  /**
   * The rows of `s` for which `p` holds, in their order in `s`: the boolean
   * row selection `df[mask]` of a dataframe.
   */
  function Filter<T(!new)>(s: seq<Labelled<T>>, p: Labelled<T> -> bool): (r: seq<Labelled<T>>)
    ensures |r| <= |s|
    ensures forall x :: x in r <==> x in s && p(x)
    ensures Increasing(s) ==> Increasing(r)
    decreases |s|
  {
    if s == [] then []
    else
      var rest := Filter(s[1..], p);
      if p(s[0]) then
        assert Increasing(s) ==> forall x :: x in rest ==> s[0].index < x.index by {
          if Increasing(s) { HeadBelowRest(s); }
        }
        [s[0]] + rest
      else rest
  }

  /** Filtering only looks at the rows' values under the predicate. */
  lemma {:induction false} FilterExt<T(!new)>(s: seq<Labelled<T>>, p: Labelled<T> -> bool, q: Labelled<T> -> bool)
    requires forall x :: x in s ==> p(x) == q(x)
    ensures Filter(s, p) == Filter(s, q)
    decreases |s|
  {
    if s != [] {
      FilterExt(s[1..], p, q);
    }
  }

  /** Two filters in a row are one filter on the conjunction. */
  lemma {:induction false} FilterFilter<T(!new)>(s: seq<Labelled<T>>, p: Labelled<T> -> bool, q: Labelled<T> -> bool)
    ensures Filter(Filter(s, p), q) == Filter(s, x => p(x) && q(x))
    decreases |s|
  {
    if s != [] {
      FilterFilter(s[1..], p, q);
    }
  }

  /** A filter that every row passes keeps the table as it is. */
  lemma {:induction false} FilterKeepsAll<T(!new)>(s: seq<Labelled<T>>, p: Labelled<T> -> bool)
    requires forall x :: x in s ==> p(x)
    ensures Filter(s, p) == s
    decreases |s|
  {
    if s != [] {
      FilterKeepsAll(s[1..], p);
    }
  }

  /** Two selections that no row passes both together take at most every row once. */
  lemma {:induction false} FilterDisjointSize<T(!new)>(s: seq<Labelled<T>>, p: Labelled<T> -> bool, q: Labelled<T> -> bool)
    requires forall x :: x in s ==> !(p(x) && q(x))
    ensures |Filter(s, p)| + |Filter(s, q)| <= |s|
    decreases |s|
  {
    if s != [] {
      assert s[0] in s;
      FilterDisjointSize(s[1..], p, q);
    }
  }

  /** In a table with increasing labels a label identifies its row. */
  lemma IndexIdentifiesRow<T(!new)>(s: seq<Labelled<T>>, x: Labelled<T>, y: Labelled<T>)
    requires Increasing(s) && x in s && y in s && x.index == y.index
    ensures x == y
  {
    var i :| 0 <= i < |s| && s[i] == x;
    var j :| 0 <= j < |s| && s[j] == y;
    assert i == j;
  }
}
