/**
 * The `OrderValidator` object: the loaded table, the working table that
 * cleaning and the rules narrow, the safe labels of the rescue scan and the
 * two output tables, updated in place by the pipeline's steps.
 */
module Validator {
  import opened Outcomes
  import opened Tables
  import opened Orders
  import opened Cleaning
  import opened Rules
  import opened Rescue
  import opened Partition

  /**
   * The whole pipeline on a loaded table: clean, rescue scan, rules 1-5,
   * outputs. A run fails only with one of the three errors the steps raise;
   * a run that succeeds puts each loaded row in at most one output.
   */
  function Validate(table: seq<RawOrder>, env: Env, detailed: bool): (r: Result<Outputs, Error>)
    ensures r.Err? ==> r.error in {ConversionError("zipcode"), ConversionError("id"), DigitValueError}
    ensures r.Ok? ==> OutLabels(r.value.valid) !! OutLabels(r.value.invalid)
    ensures r.Ok? ==> |r.value.valid| + |r.value.invalid| <= |table|
  {
    match Clean(LabelRows(table))
    case Err(e) => Err(e)
    case Ok(c) =>
      match RulesChain(c, env)
      case Err(e) => Err(e)
      case Ok(kept) =>
        PartitionComplete(table, ValidLabels(Rescued(c), kept), detailed);
        Ok(Partitioned(table, ValidLabels(Rescued(c), kept), detailed))
  }

  /** `Validate` step by step: the first failing step's error, or the partition by the rescued and kept labels. */
  lemma ValidateSteps(table: seq<RawOrder>, env: Env, detailed: bool)
    ensures Clean(LabelRows(table)).Err? ==> Validate(table, env, detailed) == Err(Clean(LabelRows(table)).error)
    ensures Clean(LabelRows(table)).Ok? && RulesChain(Clean(LabelRows(table)).value, env).Err? ==>
      Validate(table, env, detailed) == Err(RulesChain(Clean(LabelRows(table)).value, env).error)
    ensures Clean(LabelRows(table)).Ok? && RulesChain(Clean(LabelRows(table)).value, env).Ok? ==>
      Validate(table, env, detailed) == Ok(Partitioned(table,
        ValidLabels(Rescued(Clean(LabelRows(table)).value), RulesChain(Clean(LabelRows(table)).value, env).value), detailed))
  {
  }

  lemma CleanedRowOfLabel(table: seq<RawOrder>, c: seq<Row>, l: nat)
    requires Clean(LabelRows(table)) == Ok(c)
    requires l in LabelSet(c)
    ensures l < |table| && NoNulls(table[l]) && Labelled(l, Converted(table[l]).value) in c
  {
    LabelRowsMemberAll(table);
    CleanRowsComeFromInput(LabelRows(table), c);
    var y :| y in c && y.index == l;
    var x :| x in LabelRows(table) && x.index == l && NoNulls(x.rec) && Converted(x.rec) == Some(y.rec);
  }

  /**
   * End to end, when the run succeeds: a loaded row is valid exactly when it
   * has no null and is rescued or passes all five rules.
   */
  lemma ValidIffRescuedOrPassed(table: seq<RawOrder>, env: Env, detailed: bool, l: nat)
    ensures Validate(table, env, detailed).Ok? ==>
      Clean(LabelRows(table)).Ok? &&
      (l in OutLabels(Validate(table, env, detailed).value.valid) <==>
        l < |table| && NoNulls(table[l]) && Converted(table[l]).Some? &&
        (l in Rescued(Clean(LabelRows(table)).value) || PassesAll(Converted(table[l]).value, env)))
  {
    if Validate(table, env, detailed).Err? {
      return;
    }
    var t := LabelRows(table);
    var c := Clean(t).value;
    var kept := RulesChain(c, env).value;
    ValidOutputLabels(table, ValidLabels(Rescued(c), kept), detailed);
    RulesChainIsChain(c, env);
    ChainIsConjunction(c, SourceOrder, env);
    LabelRowsMemberAll(table);
    CleanKeepsNullFreeRows(t, c);
    if l in Rescued(c) {
      RescuedIff(c, l);
      var k :| MatchesNext(c, k) && c[k].index == l;
      assert c[k] in c;
      CleanedRowOfLabel(table, c, l);
    }
    if l in LabelSet(kept) {
      var y :| y in kept && y.index == l;
      assert l in LabelSet(c);
      CleanedRowOfLabel(table, c, l);
      CleanDropsNullRows(t, c);
      IndexIdentifiesRow(c, y, Labelled(l, Converted(table[l]).value));
    }
    if l < |table| && Converted(table[l]).Some? {
      KeepsAllIff(env, Converted(table[l]).value);
    }
    if l < |table| && NoNulls(table[l]) && Converted(table[l]).Some? && PassesAll(Converted(table[l]).value, env) {
      assert Labelled(l, table[l]) in t;
      var x := Labelled(l, Converted(table[l]).value);
      assert x in c;
      assert x in kept;
    }
  }

  class OrderValidator {
    /** `orig_df`: the loaded table, never changed. */
    const origDf: seq<RawOrder>
    /** The address part of `parseaddr`, used by rule 4. */
    const addressOf: string -> string
    /** `df` before its `zipcode` and `id` columns are converted. */
    var rawDf: seq<RawRow>
    /** `df` once converted: the working table the rules narrow. */
    var df: seq<Row>
    var safeIndex: seq<nat>
    var validDf: seq<OutRow>
    var invalidDf: seq<OutRow>

    /**
     * The working tables keep loaded rows (converted, for `df`) in loaded
     * order, and every label refers to a loaded row.
     */
    ghost predicate Valid()
      reads this
    {
      && Rectangular(origDf)
      && LoadedRows(rawDf, origDf)
      && ConvertedRows(df, origDf)
      && (forall l :: l in safeIndex ==> l < |origDf|)
    }

    /** The object right after `read_csv`: `df` is a copy of the loaded table. */
    constructor (table: seq<RawOrder>, addressOf: string -> string)
      requires Rectangular(table)
      ensures Valid()
      ensures origDf == table && this.addressOf == addressOf
      ensures rawDf == LabelRows(table) && df == [] && safeIndex == [] && validDf == [] && invalidDf == []
    {
      origDf := table;
      this.addressOf := addressOf;
      rawDf := LabelRows(table);
      df := [];
      safeIndex := [];
      validDf := [];
      invalidDf := [];
      new;
      LabelRowsMemberAll(table);
    }

    /**
     * `clean_data`: drop the rows with a null, one column after the other,
     * then convert `zipcode` and `id`; a conversion failure leaves `df` as it was.
     */
    method CleanData() returns (err: Option<Error>)
      requires Valid()
      modifies this`rawDf, this`df
      ensures Valid()
      ensures rawDf == DropNulls(old(rawDf))
      ensures Clean(old(rawDf)).Ok? ==> err == None && df == Clean(old(rawDf)).value
      ensures Clean(old(rawDf)).Err? ==> err == Some(Clean(old(rawDf)).error) && df == old(df)
    {
      DropNullRows();
      var converted := ConvertColumns(rawDf);
      if converted.Err? {
        err := Some(converted.error);
      } else {
        CleanedRowsFromLoaded(old(rawDf), origDf, converted.value);
        df := converted.value;
        err := None;
      }
    }

    /** The column loop of `clean_data`: keep the rows whose cell in each column is not null. */
    method DropNullRows()
      requires Valid()
      modifies this`rawDf
      ensures Valid()
      ensures rawDf == DropNulls(old(rawDf))
    {
      var columns := Width(origDf);
      var c := 0;
      FilterKeepsAll(rawDf, (x: RawRow) => ValuesBelow(x.rec, c));
      while c < columns
        invariant 0 <= c <= columns
        invariant rawDf == Filter(old(rawDf), (x: RawRow) => ValuesBelow(x.rec, c))
      {
        DropNextColumn(old(rawDf), c);
        rawDf := Filter(rawDf, (x: RawRow) => HasValue(x.rec, c));
        c := c + 1;
      }
      assert c == columns;
      AllColumnsDropped(old(rawDf), origDf);
      assert rawDf == DropNulls(old(rawDf));
      DropNullsFromLoaded(old(rawDf), origDf);
      assert LoadedRows(rawDf, origDf);
    }

    /**
     * `apply_rule_6`: scan `rows` in order, remembering the previous row's
     * label, state and zipcode, and record the previous label whenever the
     * current row repeats its state and zipcode. `rows` is returned unchanged.
     */
    method ApplyRule6(rows: seq<Row>) returns (r: seq<Row>)
      requires Valid()
      requires forall x :: x in rows ==> x.index < |origDf|
      modifies this`safeIndex
      ensures Valid()
      ensures r == rows && safeIndex == Rescued(rows)
    {
      var safeList: seq<nat> := [];
      var prevIndex: Option<nat> := None;
      var prevZipcode: Option<int> := None;
      var prevState: Option<string> := None;
      var i := 0;
      while i < |rows|
        invariant 0 <= i <= |rows|
        invariant safeList == Rescued(rows[..i])
        invariant i == 0 ==> prevIndex == None && prevZipcode == None && prevState == None
        invariant i > 0 ==>
          prevIndex == Some(rows[i - 1].index) && prevState == Some(rows[i - 1].rec.state) &&
          prevZipcode == Some(rows[i - 1].rec.zipcode)
      {
        var row := rows[i];
        RescuedStep(rows, i);
        if Some(row.rec.state) == prevState && Some(row.rec.zipcode) == prevZipcode {
          assert SameKey(rows[i - 1], row);
          safeList := safeList + [prevIndex.value];
        } else {
          assert !(i >= 1 && SameKey(rows[i - 1], row));
        }
        prevState := Some(row.rec.state);
        prevZipcode := Some(row.rec.zipcode);
        prevIndex := Some(row.index);
        i := i + 1;
      }
      assert rows[..|rows|] == rows;
      forall l | l in safeList ensures l < |origDf| {
        RescuedIff(rows, l);
        var k :| MatchesNext(rows, k) && rows[k].index == l;
        assert rows[k] in rows;
      }
      safeIndex := safeList;
      r := rows;
    }

    /**
     * `filter_by_rules`: the rescue scan on the whole working table, then
     * rules 1 to 5; if rule 5 raises, `df` is left as it was.
     */
    method FilterByRules(cutoff: int) returns (err: Option<Error>)
      requires Valid()
      modifies this`df, this`safeIndex
      ensures Valid()
      ensures safeIndex == Rescued(old(df))
      ensures RulesChain(old(df), Env(cutoff, addressOf)).Ok? ==>
        err == None && df == RulesChain(old(df), Env(cutoff, addressOf)).value
      ensures RulesChain(old(df), Env(cutoff, addressOf)).Err? ==>
        err == Some(RulesChain(old(df), Env(cutoff, addressOf)).error) && df == old(df)
    {
      var d := df;
      d := ApplyRule6(d);
      d := Rule1(d);
      d := Rule2(d);
      d := Rule3(d, cutoff);
      d := Rule4(d, addressOf);
      var last := Rule5(d);
      if last.Err? {
        err := Some(last.error);
      } else {
        df := last.value;
        err := None;
      }
    }

    /**
     * `prepare_output_dfs`: rebuild the valid and invalid tables from the
     * loaded table, keeping only `id` and `name` unless `detailed`.
     */
    method PrepareOutputDfs(detailed: bool)
      requires Valid()
      modifies this`validDf, this`invalidDf
      ensures Valid()
      ensures Outputs(validDf, invalidDf) == Partitioned(origDf, ValidLabels(safeIndex, df), detailed)
    {
      var valid := ValidLabels(safeIndex, df);
      validDf := Project(ValidRows(origDf, valid), detailed);
      invalidDf := Project(InvalidRows(origDf, valid), detailed);
    }
  }

  /**
   * The steps of the program in the order its entry point runs them: load,
   * clean, filter, prepare the outputs. An error ends the run with no output.
   */
  method ValidateOrders(table: seq<RawOrder>, addressOf: string -> string, cutoff: int, detailed: bool)
    returns (result: Result<Outputs, Error>)
    requires Rectangular(table)
    ensures result == Validate(table, Env(cutoff, addressOf), detailed)
  {
    ValidateSteps(table, Env(cutoff, addressOf), detailed);
    var validator := new OrderValidator(table, addressOf);
    var err := validator.CleanData();
    if err.Some? {
      return Err(err.value);
    }
    result := FilterAndPrepare(validator, cutoff, detailed);
  }

  /** The entry point's steps after cleaning: `filter_by_rules`, then `prepare_output_dfs`. */
  method FilterAndPrepare(validator: OrderValidator, cutoff: int, detailed: bool)
    returns (result: Result<Outputs, Error>)
    requires validator.Valid()
    modifies validator
    ensures RulesChain(old(validator.df), Env(cutoff, validator.addressOf)).Err? ==>
      result == Err(RulesChain(old(validator.df), Env(cutoff, validator.addressOf)).error)
    ensures RulesChain(old(validator.df), Env(cutoff, validator.addressOf)).Ok? ==>
      result == Ok(Partitioned(validator.origDf,
        ValidLabels(Rescued(old(validator.df)), RulesChain(old(validator.df), Env(cutoff, validator.addressOf)).value), detailed))
  {
    var err := validator.FilterByRules(cutoff);
    if err.Some? {
      return Err(err.value);
    }
    validator.PrepareOutputDfs(detailed);
    result := Ok(Outputs(validator.validDf, validator.invalidDf));
  }
}
