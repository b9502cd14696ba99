/**
 * `clean_data`: drop every row that has a null in any column, then convert
 * the `zipcode` and `id` columns to integers.
 */
module Cleaning {
  import opened Outcomes
  import opened Tables
  import opened Text
  import opened Orders

  predicate ZipConvertible(r: RawOrder) { r.zipcode.Val? && ParseInt(r.zipcode.value).Some? }

  predicate IdConvertible(r: RawOrder) { r.id.Val? && ParseInt(r.id.value).Some? }

  /** The cleaned form of one row, or `None` when the row has a null or an unconvertible `id`/`zipcode`. */
  function Converted(r: RawOrder): (o: Option<Order>)
    ensures o.Some? <==> NoNulls(r) && ZipConvertible(r) && IdConvertible(r)
    ensures o.Some? ==>
      && Some(o.value.id) == ParseInt(r.id.value) && Some(o.value.zipcode) == ParseInt(r.zipcode.value)
      && r.name == Val(o.value.name) && r.state == Val(o.value.state) && r.birthday == Val(o.value.birthday)
      && r.email == Val(o.value.email) && |o.value.others| == |r.others|
      && forall k :: 0 <= k < |r.others| ==> r.others[k] == Val(o.value.others[k])
  {
    NoNullsIff(r);
    if NoNulls(r) && ZipConvertible(r) && IdConvertible(r) then
      Some(Order(ParseInt(r.id.value).value, r.name.value, r.state.value, ParseInt(r.zipcode.value).value,
                 r.birthday.value, r.email.value,
                 seq(|r.others|, k requires 0 <= k < |r.others| => r.others[k].value)))
    else None
  }

  /** What the column-by-column null filter leaves: the rows without any null, in order. */
  function DropNulls(t: seq<RawRow>): (r: seq<RawRow>)
    ensures |r| <= |t|
    ensures forall x :: x in r <==> x in t && NoNulls(x.rec)
    ensures Increasing(t) ==> Increasing(r)
  {
    Filter(t, (x: RawRow) => NoNulls(x.rec))
  }

  /** Convert every row of a null-free, convertible table. */
  function ConvertRows(t: seq<RawRow>): (r: seq<Row>)
    requires forall x :: x in t ==> Converted(x.rec).Some?
    ensures |r| == |t|
    ensures forall i :: 0 <= i < |t| ==> r[i].index == t[i].index && Converted(t[i].rec) == Some(r[i].rec)
    decreases |t|
  {
    if t == [] then [] else [Labelled(t[0].index, Converted(t[0].rec).value)] + ConvertRows(t[1..])
  }

  /**
   * `astype(int)` on the `zipcode` column, then on the `id` column: the first
   * column holding a text that is not an integer makes the whole call fail.
   */
  function ConvertColumns(t: seq<RawRow>): (r: Result<seq<Row>, Error>)
    requires forall x :: x in t ==> NoNulls(x.rec)
    ensures r.Err? <==> exists x :: x in t && (!ZipConvertible(x.rec) || !IdConvertible(x.rec))
    ensures r.Err? ==> (r.error == ConversionError("zipcode") <==> exists x :: x in t && !ZipConvertible(x.rec))
    ensures r.Err? ==> r.error in {ConversionError("zipcode"), ConversionError("id")}
    ensures r.Ok? ==> |r.value| == |t|
    ensures r.Ok? ==>
      forall i :: 0 <= i < |t| ==> r.value[i].index == t[i].index && Converted(t[i].rec) == Some(r.value[i].rec)
    ensures r.Ok? && Increasing(t) ==> Increasing(r.value)
  {
    if exists x :: x in t && !ZipConvertible(x.rec) then Err(ConversionError("zipcode"))
    else if exists x :: x in t && !IdConvertible(x.rec) then Err(ConversionError("id"))
    else Ok(ConvertRows(t))
  }

  /** `clean_data` on a working table. */
  function Clean(t: seq<RawRow>): (r: Result<seq<Row>, Error>)
    ensures r.Ok? ==> |r.value| <= |t|
    ensures r.Ok? && Increasing(t) ==> Increasing(r.value)
  {
    ConvertColumns(DropNulls(t))
  }

  /** Each row a successful clean returns comes from a null-free input row with the same label. */
  lemma CleanRowsComeFromInput(t: seq<RawRow>, c: seq<Row>)
    requires Clean(t) == Ok(c)
    ensures forall y :: y in c ==>
      exists x :: x in t && x.index == y.index && NoNulls(x.rec) && Converted(x.rec) == Some(y.rec)
  {
    var d := DropNulls(t);
    forall y | y in c
      ensures exists x :: x in t && x.index == y.index && NoNulls(x.rec) && Converted(x.rec) == Some(y.rec)
    {
      var i :| 0 <= i < |c| && c[i] == y;
      assert d[i] in d;
    }
  }

  /** Every null-free input row survives a successful clean, converted. */
  lemma CleanKeepsNullFreeRows(t: seq<RawRow>, c: seq<Row>)
    requires Clean(t) == Ok(c)
    ensures forall x :: x in t && NoNulls(x.rec) ==>
      Converted(x.rec).Some? && Labelled(x.index, Converted(x.rec).value) in c
  {
    var d := DropNulls(t);
    forall x | x in t && NoNulls(x.rec)
      ensures Converted(x.rec).Some? && Labelled(x.index, Converted(x.rec).value) in c
    {
      assert x in d;
      var i :| 0 <= i < |d| && d[i] == x;
      assert c[i] == Labelled(x.index, Converted(x.rec).value);
    }
  }

  /**
   * A successful clean keeps the original order, and no row that had a null
   * survives.
   */
  lemma CleanDropsNullRows(t: seq<RawRow>, c: seq<Row>)
    requires Clean(t) == Ok(c) && Increasing(t)
    ensures Increasing(c)
    ensures forall x :: x in t && !NoNulls(x.rec) ==> x.index !in LabelSet(c)
  {
    var d := DropNulls(t);
    forall i, j | 0 <= i < j < |c| ensures c[i].index < c[j].index {
      assert c[i].index == d[i].index && c[j].index == d[j].index;
    }
    CleanRowsComeFromInput(t, c);
    forall x | x in t && !NoNulls(x.rec) ensures x.index !in LabelSet(c) {
      if x.index in LabelSet(c) {
        var y :| y in c && y.index == x.index;
        var x' :| x' in t && x'.index == y.index && NoNulls(x'.rec) && Converted(x'.rec) == Some(y.rec);
        IndexIdentifiesRow(t, x, x');
      }
    }
  }

  /**
   * Cleaning fails exactly when some null-free row has an `id` or `zipcode`
   * that is not an integer; the `zipcode` column is converted first.
   */
  lemma CleanFailsIff(t: seq<RawRow>)
    ensures Clean(t).Err? <==>
      exists x :: x in t && NoNulls(x.rec) && (!ZipConvertible(x.rec) || !IdConvertible(x.rec))
    ensures Clean(t).Err? ==>
      Clean(t).error == if exists x :: x in t && NoNulls(x.rec) && !ZipConvertible(x.rec)
                        then ConversionError("zipcode") else ConversionError("id")
  {
    var d := DropNulls(t);
    if exists x :: x in t && NoNulls(x.rec) && (!ZipConvertible(x.rec) || !IdConvertible(x.rec)) {
      var x :| x in t && NoNulls(x.rec) && (!ZipConvertible(x.rec) || !IdConvertible(x.rec));
      assert x in d;
    }
  }

  /** Dropping null rows a second time changes nothing. */
  lemma DropNullsIdempotent(t: seq<RawRow>)
    ensures DropNulls(DropNulls(t)) == DropNulls(t)
  {
    FilterKeepsAll(DropNulls(t), (x: RawRow) => NoNulls(x.rec));
  }

  /** The cleaned table written back as raw rows, integers as decimal text. */
  function UncoerceRows(c: seq<Row>): (r: seq<RawRow>)
    ensures |r| == |c|
    ensures forall i :: 0 <= i < |c| ==> r[i] == Labelled(c[i].index, Uncoerce(c[i].rec))
    decreases |c|
  {
    if c == [] then [] else [Labelled(c[0].index, Uncoerce(c[0].rec))] + UncoerceRows(c[1..])
  }

  lemma ConvertUncoerce(o: Order)
    ensures Converted(Uncoerce(o)) == Some(o)
  {
    ParseIntToString(o.id);
    ParseIntToString(o.zipcode);
    var r := Uncoerce(o);
    var p := Converted(r).value;
    assert p.others == o.others;
  }

  /**
   * Any converted table, written back as text, cleans back to itself: in
   * particular a second `clean_data` changes nothing.
   */
  lemma {:induction false} CleanIdempotent(c: seq<Row>)
    ensures Clean(UncoerceRows(c)) == Ok(c)
  {
    var u := UncoerceRows(c);
    forall x | x in u ensures NoNulls(x.rec) && ZipConvertible(x.rec) && IdConvertible(x.rec) {
      var i :| 0 <= i < |u| && u[i] == x;
      ConvertUncoerce(c[i].rec);
    }
    FilterKeepsAll(u, (x: RawRow) => NoNulls(x.rec));
    assert DropNulls(u) == u;
    var r := ConvertRows(u);
    assert ConvertColumns(u) == Ok(r);
    forall i | 0 <= i < |c| ensures r[i] == c[i] {
      ConvertUncoerce(c[i].rec);
    }
    assert r == c;
  }

  /** Each of the first `c` columns of the row holds a value. */
  predicate ValuesBelow(r: RawOrder, c: nat)
  {
    forall j :: 0 <= j < c ==> HasValue(r, j)
  }

  /** Dropping the rows with a null in column `c` after those with a null below `c`. */
  lemma DropNextColumn(s: seq<RawRow>, c: nat)
    ensures Filter(Filter(s, (x: RawRow) => ValuesBelow(x.rec, c)), (x: RawRow) => HasValue(x.rec, c))
         == Filter(s, (x: RawRow) => ValuesBelow(x.rec, c + 1))
  {
    var below := (x: RawRow) => ValuesBelow(x.rec, c);
    var here := (x: RawRow) => HasValue(x.rec, c);
    FilterFilter(s, below, here);
    FilterExt(s, (x: RawRow) => below(x) && here(x), (x: RawRow) => ValuesBelow(x.rec, c + 1));
  }

  /** Once every column of a rectangular table has been checked, exactly the null-free rows remain. */
  lemma AllColumnsDropped(s: seq<RawRow>, orig: seq<RawOrder>)
    requires Rectangular(orig) && LoadedRows(s, orig)
    ensures Filter(s, (x: RawRow) => ValuesBelow(x.rec, Width(orig))) == DropNulls(s)
  {
    forall x | x in s ensures ValuesBelow(x.rec, Width(orig)) == NoNulls(x.rec) {
      assert ColumnCount(x.rec) == Width(orig) by {
        assert orig != [] && |x.rec.others| == |orig[0].others|;
      }
    }
    FilterExt(s, (x: RawRow) => ValuesBelow(x.rec, Width(orig)), (x: RawRow) => NoNulls(x.rec));
  }

  /** The rows a successful clean returns are conversions of loaded rows, in loaded order. */
  lemma CleanedRowsFromLoaded(t: seq<RawRow>, orig: seq<RawOrder>, c: seq<Row>)
    requires LoadedRows(t, orig) && Clean(t) == Ok(c)
    ensures ConvertedRows(c, orig)
  {
    CleanRowsComeFromInput(t, c);
    CleanDropsNullRows(t, c);
  }

  /** A table of loaded rows in loaded order. */
  predicate LoadedRows(t: seq<RawRow>, orig: seq<RawOrder>)
  {
    Increasing(t) && forall x :: x in t ==> x.index < |orig| && orig[x.index] == x.rec
  }

  /** A table of converted loaded rows in loaded order. */
  predicate ConvertedRows(t: seq<Row>, orig: seq<RawOrder>)
  {
    Increasing(t) && forall x :: x in t ==> x.index < |orig| && Converted(orig[x.index]) == Some(x.rec)
  }

  /** Dropping rows keeps a table of loaded rows in loaded order. */
  lemma DropNullsFromLoaded(t: seq<RawRow>, orig: seq<RawOrder>)
    requires LoadedRows(t, orig)
    ensures LoadedRows(DropNulls(t), orig)
  {
  }
}
