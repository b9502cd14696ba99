/**
 * `apply_rule_6`, the duplicate rescue: scanning the working table in order,
 * whenever a row has the same state and zipcode as the row just before it,
 * the label of that previous row is recorded as safe.
 */
module Rescue {
  import opened Tables
  import opened Orders

  predicate SameKey(a: Row, b: Row)
  {
    a.rec.state == b.rec.state && a.rec.zipcode == b.rec.zipcode
  }

  /** Row `k` has a successor with the same state and zipcode. */
  predicate MatchesNext(rows: seq<Row>, k: int)
  {
    0 <= k < |rows| - 1 && SameKey(rows[k], rows[k + 1])
  }

  /** The labels the scan records after reading the whole table, in the order recorded. */
  function Rescued(rows: seq<Row>): (r: seq<nat>)
    ensures |r| <= if rows == [] then 0 else |rows| - 1
    ensures forall l :: l in r ==> l in LabelSet(rows)
    decreases |rows|
  {
    if |rows| < 2 then []
    else
      var n := |rows|;
      var p := rows[..n - 1];
      assert forall x :: x in p ==> x in rows;
      assert rows[n - 2] in rows;
      Rescued(p) + (if SameKey(rows[n - 2], rows[n - 1]) then [rows[n - 2].index] else [])
  }

  /** Reading one more row records the previous label exactly when the two rows share state and zipcode. */
  lemma RescuedStep(rows: seq<Row>, i: nat)
    requires i < |rows|
    ensures Rescued(rows[..i + 1]) ==
      Rescued(rows[..i]) + (if i >= 1 && SameKey(rows[i - 1], rows[i]) then [rows[i - 1].index] else [])
  {
    var p := rows[..i + 1];
    if i >= 1 {
      assert p[..i] == rows[..i];
      assert p[i - 1] == rows[i - 1] && p[i] == rows[i];
    }
  }

  /**
   * A label is rescued exactly when it is the label of a row whose immediate
   * successor has the same state and zipcode.
   */
  lemma {:induction false} RescuedIff(rows: seq<Row>, l: nat)
    ensures l in Rescued(rows) <==> exists k :: MatchesNext(rows, k) && rows[k].index == l
    decreases |rows|
  {
    if |rows| >= 2 {
      var n := |rows|;
      var p := rows[..n - 1];
      RescuedIff(p, l);
      forall k ensures MatchesNext(p, k) <==> MatchesNext(rows, k) && k < n - 2 {
        if 0 <= k < n - 2 { assert p[k] == rows[k] && p[k + 1] == rows[k + 1]; }
      }
      if exists k :: MatchesNext(rows, k) && rows[k].index == l {
        var k :| MatchesNext(rows, k) && rows[k].index == l;
        if k < n - 2 { assert MatchesNext(p, k) && p[k].index == l; }
      }
    }
  }

  /**
   * On a table with increasing labels the rescued labels increase too, so
   * none repeats; each is the label of a row of the table.
   */
  lemma {:induction false} RescuedIncreasing(rows: seq<Row>)
    requires Increasing(rows)
    ensures forall i, j :: 0 <= i < j < |Rescued(rows)| ==> Rescued(rows)[i] < Rescued(rows)[j]
    ensures forall l :: l in Rescued(rows) ==> l in LabelSet(rows)
    decreases |rows|
  {
    var r := Rescued(rows);
    forall l | l in r ensures l in LabelSet(rows) {
      RescuedIff(rows, l);
      var k :| MatchesNext(rows, k) && rows[k].index == l;
      assert rows[k] in rows;
    }
    if |rows| >= 2 {
      var n := |rows|;
      var p := rows[..n - 1];
      assert Increasing(p);
      RescuedIncreasing(p);
      var q := Rescued(p);
      forall i | 0 <= i < |q| ensures q[i] < rows[n - 2].index {
        RescuedIff(p, q[i]);
        var k :| MatchesNext(p, k) && p[k].index == q[i];
      }
    }
  }

  /** A row with no matching successor is never rescued (on increasing labels). */
  lemma NoMatchNotRescued(rows: seq<Row>, k: nat)
    requires Increasing(rows) && k < |rows|
    requires !MatchesNext(rows, k)
    ensures rows[k].index !in Rescued(rows)
  {
    RescuedIff(rows, rows[k].index);
  }

  /** In particular the last row scanned is never rescued. */
  lemma LastRowNotRescued(rows: seq<Row>)
    requires Increasing(rows) && rows != []
    ensures rows[|rows| - 1].index !in Rescued(rows)
  {
    NoMatchNotRescued(rows, |rows| - 1);
  }

  /**
   * In a run `rows[a..b]` of consecutive rows sharing state and zipcode that
   * the next row (if any) does not continue, every row but the last is
   * rescued and the last is not.
   */
  lemma RunRescued(rows: seq<Row>, a: nat, b: nat)
    requires Increasing(rows) && a < b <= |rows|
    requires forall k :: a <= k < b - 1 ==> SameKey(rows[k], rows[k + 1])
    requires b == |rows| || !SameKey(rows[b - 1], rows[b])
    ensures forall k :: a <= k < b - 1 ==> rows[k].index in Rescued(rows)
    ensures rows[b - 1].index !in Rescued(rows)
  {
    forall k | a <= k < b - 1 ensures rows[k].index in Rescued(rows) {
      RescuedIff(rows, rows[k].index);
      assert MatchesNext(rows, k);
    }
    NoMatchNotRescued(rows, b - 1);
  }
}
