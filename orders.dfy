/**
 * Order records: the raw row as loaded (any cell may be null) and the cleaned
 * row whose `id` and `zipcode` have been converted to integers.
 */
module Orders {
  import opened Tables
  import opened Text

  /** A table cell: null (NaN in the dataframe) or a value. */
  datatype Cell<T> = Null | Val(value: T)

  /**
   * One loaded order. `id` and `zipcode` keep the text of the input file;
   * `birthday` has already been parsed to a day number; `others` holds the
   * remaining columns, which pass through unexamined.
   */
  datatype RawOrder = RawOrder(
    id: Cell<string>,
    name: Cell<string>,
    state: Cell<string>,
    zipcode: Cell<string>,
    birthday: Cell<int>,
    email: Cell<string>,
    others: seq<Cell<string>>)

  /** An order after cleaning: no null anywhere, `id` and `zipcode` are integers. */
  datatype Order = Order(
    id: int,
    name: string,
    state: string,
    zipcode: int,
    birthday: int,
    email: string,
    others: seq<string>)

  type RawRow = Labelled<RawOrder>
  type Row = Labelled<Order>

  datatype Error =
    | ConversionError(column: string)   // `astype(int)` met a text that is not an integer
    | DigitValueError                   // `int(x)` met the '-' of a negative zipcode

  /** The six named columns come first, then the pass-through ones. */
  const NamedColumns: nat := 6

  function ColumnCount(r: RawOrder): nat
  {
    NamedColumns + |r.others|
  }

  /** Column `c` of the row holds a value (columns the row does not have count as present). */
  predicate HasValue(r: RawOrder, c: nat)
  {
    if c == 0 then r.id.Val?
    else if c == 1 then r.name.Val?
    else if c == 2 then r.state.Val?
    else if c == 3 then r.zipcode.Val?
    else if c == 4 then r.birthday.Val?
    else if c == 5 then r.email.Val?
    else c - NamedColumns >= |r.others| || r.others[c - NamedColumns].Val?
  }

  /** No column of the row is null. */
  predicate NoNulls(r: RawOrder)
  {
    forall c :: 0 <= c < ColumnCount(r) ==> HasValue(r, c)
  }

  lemma NoNullsIff(r: RawOrder)
    ensures NoNulls(r) <==>
      r.id.Val? && r.name.Val? && r.state.Val? && r.zipcode.Val? && r.birthday.Val? && r.email.Val? &&
      forall k :: 0 <= k < |r.others| ==> r.others[k].Val?
  {
    if NoNulls(r) {
      forall k | 0 <= k < |r.others| ensures r.others[k].Val? {
        assert HasValue(r, NamedColumns + k);
      }
      assert HasValue(r, 0) && HasValue(r, 1) && HasValue(r, 2);
      assert HasValue(r, 3) && HasValue(r, 4) && HasValue(r, 5);
    }
  }

  /** Every row of a dataframe has the same columns. */
  predicate Rectangular(t: seq<RawOrder>)
  {
    forall i, j :: 0 <= i < |t| && 0 <= j < |t| ==> |t[i].others| == |t[j].others|
  }

  function Width(t: seq<RawOrder>): nat
  {
    if t == [] then NamedColumns else ColumnCount(t[0])
  }

  /** The cleaned order written back as a raw row, integers as decimal text. */
  function Uncoerce(o: Order): (r: RawOrder)
    ensures NoNulls(r)
  {
    var r := RawOrder(Val(IntToString(o.id)), Val(o.name), Val(o.state), Val(IntToString(o.zipcode)),
             Val(o.birthday), Val(o.email), seq(|o.others|, k requires 0 <= k < |o.others| => Val(o.others[k])));
    NoNullsIff(r);
    r
  }
}
