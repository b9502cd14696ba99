/**
 * The per-row rules `apply_rule_1` .. `apply_rule_5`: each keeps the rows of
 * its input that satisfy one predicate, in their order. Rule 5 raises when it
 * meets a negative zipcode, because `int('-')` is not a number.
 */
module Rules {
  import opened Outcomes
  import opened Tables
  import opened Text
  import opened Orders

  /** States to which orders cannot be shipped (`bad_states`). */
  const BadStates: seq<string> := ["NJ", "CT", "PA", "MA", "IL", "ID", "OR"]

  /** A zipcode's text must have one of these lengths. */
  const ZipLengths: set<nat> := {5, 9}

  /** Largest allowed sum of a zipcode's digits. */
  const MaxDigitSum: nat := 20

  /**
   * What the rules read from outside the table: the last birthday day number
   * that is at least 21 years before now, and the address part of Python's
   * `parseaddr` (an empty text when no address could be parsed).
   */
  datatype Env = Env(cutoff: int, addressOf: string -> string)

  predicate StateAllowed(o: Order) { o.state !in BadStates }

  predicate OldEnough(o: Order, cutoff: int) { o.birthday <= cutoff }

  predicate EmailOk(o: Order, addressOf: string -> string) { addressOf(o.email) != "" }

  /** The zipcodes whose decimal text has 5 or 9 characters, sign included. */
  predicate FiveOrNineChars(z: int)
  {
    || 10000 <= z <= 99999
    || 100000000 <= z <= 999999999
    || -9999 <= z <= -1000
    || -99999999 <= z <= -10000000
  }

  /**
   * Rule 2's test `z and len(str(z)) in (5, 9)`: exactly the zipcodes in the
   * 5- and 9-character ranges, negative ones included.
   */
  predicate ZipLengthOk(o: Order)
    ensures ZipLengthOk(o) <==> FiveOrNineChars(o.zipcode)
  {
    var z := o.zipcode;
    var n: nat := if z < 0 then -z else z;
    assert Pow10(4) == 10000 && Pow10(3) == 1000;
    assert Pow10(5) == 100000 && Pow10(8) == 100000000 && Pow10(9) == 1000000000;
    assert Pow10(7) == 10000000;
    assert |IntToString(z)| == if z < 0 then 1 + |NatToString(n)| else |NatToString(n)|;
    NatToStringLengthIs(n, 4);
    NatToStringLengthIs(n, 8);
    NatToStringLengthIs(n, 5);
    NatToStringLengthIs(n, 9);
    z != 0 && |IntToString(z)| in ZipLengths
  }

  /**
   * Rule 5's test `sum([int(x) for x in str(z)]) <= 20`: it holds exactly for
   * a non-negative zipcode whose digits sum to at most 20 (for a negative one
   * the sum cannot be taken).
   */
  predicate DigitSumOk(o: Order)
    ensures DigitSumOk(o) <==> o.zipcode >= 0 && DigitSum(o.zipcode) <= MaxDigitSum
  {
    TextDigitSumOfInt(o.zipcode);
    var t := TextDigitSum(IntToString(o.zipcode));
    t.Some? && t.value <= MaxDigitSum
  }

  /** Rule 5's digit sum cannot be taken exactly for a negative zipcode. */
  lemma DigitSumRaisesIffNegative()
    ensures forall o: Order :: TextDigitSum(IntToString(o.zipcode)).None? <==> o.zipcode < 0
  {
    forall o: Order
      ensures TextDigitSum(IntToString(o.zipcode)) == if o.zipcode < 0 then None else Some(DigitSum(o.zipcode))
    {
      TextDigitSumOfInt(o.zipcode);
    }
  }

  /** Rule 1: drop orders to a banned state. */
  function Rule1(rows: seq<Row>): (r: seq<Row>)
    ensures forall x :: x in r <==> x in rows && x.rec.state !in BadStates
    ensures Increasing(rows) ==> Increasing(r)
  {
    Filter(rows, (x: Row) => StateAllowed(x.rec))
  }

  /** Rule 2: keep orders whose non-zero zipcode is written with 5 or 9 characters. */
  function Rule2(rows: seq<Row>): (r: seq<Row>)
    ensures forall x :: x in r <==> x in rows && FiveOrNineChars(x.rec.zipcode)
    ensures Increasing(rows) ==> Increasing(r)
  {
    Filter(rows, (x: Row) => ZipLengthOk(x.rec))
  }

  /** Rule 3: keep customers born on or before the cutoff day (21 years before now). */
  function Rule3(rows: seq<Row>, cutoff: int): (r: seq<Row>)
    ensures forall x :: x in r <==> x in rows && x.rec.birthday <= cutoff
    ensures Increasing(rows) ==> Increasing(r)
  {
    Filter(rows, (x: Row) => OldEnough(x.rec, cutoff))
  }

  /** Rule 4: keep orders whose email yields a non-empty parsed address. */
  function Rule4(rows: seq<Row>, addressOf: string -> string): (r: seq<Row>)
    ensures forall x :: x in r <==> x in rows && addressOf(x.rec.email) != ""
    ensures Increasing(rows) ==> Increasing(r)
  {
    Filter(rows, (x: Row) => EmailOk(x.rec, addressOf))
  }

  /**
   * Rule 5: keep orders whose zipcode digits sum to at most 20; a negative
   * zipcode anywhere in the input makes the rule raise.
   */
  function Rule5(rows: seq<Row>): (r: Result<seq<Row>, Error>)
    ensures r.Err? <==> exists x :: x in rows && x.rec.zipcode < 0
    ensures r.Err? ==> r.error == DigitValueError
    ensures r.Ok? ==> forall x :: x in r.value <==> x in rows && DigitSum(x.rec.zipcode) <= MaxDigitSum
    ensures r.Ok? && Increasing(rows) ==> Increasing(r.value)
  {
    DigitSumRaisesIffNegative();
    if exists x :: x in rows && TextDigitSum(IntToString(x.rec.zipcode)).None? then Err(DigitValueError)
    else Ok(Filter(rows, (x: Row) => DigitSumOk(x.rec)))
  }

  /** The banned states are the seven two-letter codes of `bad_states`. */
  lemma BadStatesAre(state: string)
    ensures state in BadStates <==> state in {"NJ", "CT", "PA", "MA", "IL", "ID", "OR"}
  {
  }

  /** The five rules' conditions on one order, as stated by `Rule1` .. `Rule5`. */
  predicate PassesAll(o: Order, env: Env)
  {
    && o.state !in BadStates && FiveOrNineChars(o.zipcode) && o.birthday <= env.cutoff
    && env.addressOf(o.email) != "" && o.zipcode >= 0 && DigitSum(o.zipcode) <= MaxDigitSum
  }

  /**
   * `filter_by_rules` after the rescue scan: rules 1 to 5 in the source's
   * order. When it does not raise, an order survives exactly when it passes
   * all five rules, and the survivors keep their order.
   */
  function RulesChain(rows: seq<Row>, env: Env): (r: Result<seq<Row>, Error>)
    ensures r.Err? ==> r.error == DigitValueError
    ensures r.Ok? ==> forall x :: x in r.value <==> x in rows && PassesAll(x.rec, env)
    ensures r.Ok? && Increasing(rows) ==> Increasing(r.value)
  {
    var r1 := Rule1(rows);
    var r2 := Rule2(r1);
    var r3 := Rule3(r2, env.cutoff);
    var r4 := Rule4(r3, env.addressOf);
    var r5 := Rule5(r4);
    assert Increasing(rows) ==> Increasing(r4);
    assert r5.Ok? ==> forall x :: x in r5.value <==> x in rows && PassesAll(x.rec, env) by {
      if r5.Ok? {
        forall x ensures x in r5.value <==> x in rows && PassesAll(x.rec, env) {
          assert x in r4 <==> x in r3 && env.addressOf(x.rec.email) != "";
          assert x in r3 <==> x in r2 && x.rec.birthday <= env.cutoff;
          assert x in r2 <==> x in r1 && FiveOrNineChars(x.rec.zipcode);
        }
      }
    }
    r5
  }

  /** The five row rules, by name, so that their order can be varied. */
  datatype RowRule = BannedState | ZipLength | Age | Email | ZipDigitSum

  const SourceOrder: seq<RowRule> := [BannedState, ZipLength, Age, Email, ZipDigitSum]

  /** Whether a rule keeps an order (rule 5 keeps no negative zipcode). */
  predicate Keeps(rule: RowRule, env: Env, o: Order)
  {
    match rule
    case BannedState => StateAllowed(o)
    case ZipLength => ZipLengthOk(o)
    case Age => OldEnough(o, env.cutoff)
    case Email => EmailOk(o, env.addressOf)
    case ZipDigitSum => DigitSumOk(o)
  }

  /** An order that every rule of the source's order keeps is exactly one that passes all five conditions. */
  lemma KeepsAllIff(env: Env, o: Order)
    ensures (forall rule :: rule in SourceOrder ==> Keeps(rule, env, o)) <==> PassesAll(o, env)
  {
    forall rule: RowRule ensures rule in SourceOrder {
      match rule
      case BannedState => assert SourceOrder[0] == rule;
      case ZipLength => assert SourceOrder[1] == rule;
      case Age => assert SourceOrder[2] == rule;
      case Email => assert SourceOrder[3] == rule;
      case ZipDigitSum => assert SourceOrder[4] == rule;
    }
    assert Keeps(BannedState, env, o) == StateAllowed(o) && Keeps(ZipLength, env, o) == ZipLengthOk(o);
    assert Keeps(Age, env, o) == OldEnough(o, env.cutoff) && Keeps(Email, env, o) == EmailOk(o, env.addressOf);
    assert Keeps(ZipDigitSum, env, o) == DigitSumOk(o);
  }

  /** A rule as a row selection. */
  function KeepFn(rule: RowRule, env: Env): Row -> bool
  {
    (x: Row) => Keeps(rule, env, x.rec)
  }

  /** Apply the rules one after another in the given order. */
  function Chain(rows: seq<Row>, order: seq<RowRule>, env: Env): seq<Row>
    decreases |order|
  {
    if order == [] then rows
    else Chain(Filter(rows, KeepFn(order[0], env)), order[1..], env)
  }

  /** A chain of rules is one filter on the conjunction of its rules. */
  lemma {:induction false} ChainIsConjunction(rows: seq<Row>, order: seq<RowRule>, env: Env)
    ensures Chain(rows, order, env) == Filter(rows, (x: Row) => forall rule :: rule in order ==> Keeps(rule, env, x.rec))
    decreases |order|
  {
    if order == [] {
      FilterKeepsAll(rows, (x: Row) => forall rule :: rule in order ==> Keeps(rule, env, x.rec));
    } else {
      var first := KeepFn(order[0], env);
      var rest := (x: Row) => forall rule :: rule in order[1..] ==> Keeps(rule, env, x.rec);
      var all := (x: Row) => forall rule :: rule in order ==> Keeps(rule, env, x.rec);
      ChainIsConjunction(Filter(rows, first), order[1..], env);
      FilterFilter(rows, first, rest);
      forall x | x in rows ensures (first(x) && rest(x)) == all(x) {
        assert forall rule :: rule in order <==> rule == order[0] || rule in order[1..];
      }
      FilterExt(rows, (x: Row) => first(x) && rest(x), all);
    }
  }

  /**
   * The rows that survive do not depend on the order in which the rules are
   * applied: any two orders naming the same rules give the same table.
   */
  lemma RuleOrderIrrelevant(rows: seq<Row>, order1: seq<RowRule>, order2: seq<RowRule>, env: Env)
    requires forall rule :: rule in order1 <==> rule in order2
    ensures Chain(rows, order1, env) == Chain(rows, order2, env)
  {
    ChainIsConjunction(rows, order1, env);
    ChainIsConjunction(rows, order2, env);
    FilterExt(rows, (x: Row) => forall rule :: rule in order1 ==> Keeps(rule, env, x.rec),
                    (x: Row) => forall rule :: rule in order2 ==> Keeps(rule, env, x.rec));
  }

  /** Each rule function is the filter of its named rule. */
  lemma Rule1IsRule(rows: seq<Row>, env: Env)
    ensures Rule1(rows) == Filter(rows, KeepFn(BannedState, env))
  {
    FilterExt(rows, (x: Row) => StateAllowed(x.rec), KeepFn(BannedState, env));
  }

  lemma Rule2IsRule(rows: seq<Row>, env: Env)
    ensures Rule2(rows) == Filter(rows, KeepFn(ZipLength, env))
  {
    FilterExt(rows, (x: Row) => ZipLengthOk(x.rec), KeepFn(ZipLength, env));
  }

  lemma Rule3IsRule(rows: seq<Row>, env: Env)
    ensures Rule3(rows, env.cutoff) == Filter(rows, KeepFn(Age, env))
  {
    FilterExt(rows, (x: Row) => OldEnough(x.rec, env.cutoff), KeepFn(Age, env));
  }

  lemma Rule4IsRule(rows: seq<Row>, env: Env)
    ensures Rule4(rows, env.addressOf) == Filter(rows, KeepFn(Email, env))
  {
    FilterExt(rows, (x: Row) => EmailOk(x.rec, env.addressOf), KeepFn(Email, env));
  }

  lemma Rule5IsRule(rows: seq<Row>, env: Env)
    ensures Rule5(rows).Ok? ==> Rule5(rows).value == Filter(rows, KeepFn(ZipDigitSum, env))
  {
    FilterExt(rows, (x: Row) => DigitSumOk(x.rec), KeepFn(ZipDigitSum, env));
  }

  /** Applying the first rule of a chain and then the rest is the whole chain. */
  lemma ChainStep(rows: seq<Row>, order: seq<RowRule>, env: Env)
    requires order != []
    ensures Chain(rows, order, env) == Chain(Filter(rows, KeepFn(order[0], env)), order[1..], env)
  {
  }

  /**
   * One rule applied as the source applies it: rule 5 raises when a negative
   * zipcode is still present, every other rule only selects rows.
   */
  function Step(rows: seq<Row>, rule: RowRule, env: Env): Result<seq<Row>, Error>
  {
    if rule == ZipDigitSum && exists x :: x in rows && x.rec.zipcode < 0 then Err(DigitValueError)
    else Ok(Filter(rows, KeepFn(rule, env)))
  }

  /** The rules applied one after another in the given order, stopping at the first that raises. */
  function RaisingChain(rows: seq<Row>, order: seq<RowRule>, env: Env): Result<seq<Row>, Error>
    decreases |order|
  {
    if order == [] then Ok(rows)
    else
      match Step(rows, order[0], env)
      case Err(e) => Err(e)
      case Ok(next) => RaisingChain(next, order[1..], env)
  }

  /** A raising chain that completes keeps what the selecting chain keeps. */
  lemma {:induction false} RaisingChainIsChain(rows: seq<Row>, order: seq<RowRule>, env: Env)
    ensures RaisingChain(rows, order, env).Ok? ==> RaisingChain(rows, order, env).value == Chain(rows, order, env)
    decreases |order|
  {
    if order != [] {
      var s := Step(rows, order[0], env);
      if s.Ok? {
        RaisingChainIsChain(s.value, order[1..], env);
      }
    }
  }

  /**
   * Two orders of the same rules that both complete keep the same rows.
   * Whether they complete can depend on the order: rule 5 raises only if a
   * negative zipcode is still present when it runs.
   */
  lemma RaisingOrderIrrelevant(rows: seq<Row>, order1: seq<RowRule>, order2: seq<RowRule>, env: Env)
    requires forall rule :: rule in order1 <==> rule in order2
    ensures RaisingChain(rows, order1, env).Ok? && RaisingChain(rows, order2, env).Ok? ==>
      RaisingChain(rows, order1, env).value == RaisingChain(rows, order2, env).value
  {
    RaisingChainIsChain(rows, order1, env);
    RaisingChainIsChain(rows, order2, env);
    RuleOrderIrrelevant(rows, order1, order2, env);
  }

  /** A rule other than rule 5 never raises: the raising chain goes on with its selection. */
  lemma RaisingChainSelect(rows: seq<Row>, rule: RowRule, rest: seq<RowRule>, env: Env)
    requires rule != ZipDigitSum
    ensures RaisingChain(rows, [rule] + rest, env) == RaisingChain(Filter(rows, KeepFn(rule, env)), rest, env)
  {
    assert ([rule] + rest)[0] == rule && ([rule] + rest)[1..] == rest;
  }

  /** Rule 5 alone, as the last step of a raising chain, is `Rule5`. */
  lemma RaisingChainRule5(rows: seq<Row>, env: Env)
    ensures RaisingChain(rows, [ZipDigitSum], env) == Rule5(rows)
  {
    Rule5IsRule(rows, env);
    assert [ZipDigitSum][1..] == [];
  }

  /** The source's chain, errors included, is the raising chain of the five rules in the source's order. */
  lemma RulesChainIsRaisingChain(rows: seq<Row>, env: Env)
    ensures RulesChain(rows, env) == RaisingChain(rows, SourceOrder, env)
  {
    var r1 := Rule1(rows);
    var r2 := Rule2(r1);
    var r3 := Rule3(r2, env.cutoff);
    var r4 := Rule4(r3, env.addressOf);
    Rule1IsRule(rows, env);
    Rule2IsRule(r1, env);
    Rule3IsRule(r2, env);
    Rule4IsRule(r3, env);
    assert SourceOrder == [BannedState] + [ZipLength, Age, Email, ZipDigitSum];
    RaisingChainSelect(rows, BannedState, [ZipLength, Age, Email, ZipDigitSum], env);
    assert [ZipLength, Age, Email, ZipDigitSum] == [ZipLength] + [Age, Email, ZipDigitSum];
    RaisingChainSelect(r1, ZipLength, [Age, Email, ZipDigitSum], env);
    assert [Age, Email, ZipDigitSum] == [Age] + [Email, ZipDigitSum];
    RaisingChainSelect(r2, Age, [Email, ZipDigitSum], env);
    assert [Email, ZipDigitSum] == [Email] + [ZipDigitSum];
    RaisingChainSelect(r3, Email, [ZipDigitSum], env);
    RaisingChainRule5(r4, env);
  }

  /** When the source's chain does not raise, it is the chain of the five rules in the source's order. */
  lemma RulesChainIsChain(rows: seq<Row>, env: Env)
    ensures RulesChain(rows, env).Ok? ==> RulesChain(rows, env).value == Chain(rows, SourceOrder, env)
  {
    var o := SourceOrder;
    var r1 := Rule1(rows);
    var r2 := Rule2(r1);
    var r3 := Rule3(r2, env.cutoff);
    var r4 := Rule4(r3, env.addressOf);
    Rule1IsRule(rows, env);
    Rule2IsRule(r1, env);
    Rule3IsRule(r2, env);
    Rule4IsRule(r3, env);
    Rule5IsRule(r4, env);
    ChainStep(rows, o, env);
    assert o[1..][0] == ZipLength && o[1..][1..] == o[2..];
    ChainStep(r1, o[1..], env);
    assert o[2..][0] == Age && o[2..][1..] == o[3..];
    ChainStep(r2, o[2..], env);
    assert o[3..][0] == Email && o[3..][1..] == o[4..];
    ChainStep(r3, o[3..], env);
    assert o[4..][0] == ZipDigitSum && o[4..][1..] == [];
    ChainStep(r4, o[4..], env);
  }

  /** The source's chain raises exactly when an order with a negative zipcode passes rules 1 to 4. */
  lemma RulesChainFailsIff(rows: seq<Row>, env: Env)
    ensures RulesChain(rows, env).Err? <==>
      exists x :: x in rows && x.rec.zipcode < 0 && x.rec.state !in BadStates && FiveOrNineChars(x.rec.zipcode)
        && x.rec.birthday <= env.cutoff && env.addressOf(x.rec.email) != ""
  {
    var r4 := Rule4(Rule3(Rule2(Rule1(rows)), env.cutoff), env.addressOf);
    assert forall x :: x in r4 <==>
      (x in rows && x.rec.state !in BadStates && FiveOrNineChars(x.rec.zipcode)
       && x.rec.birthday <= env.cutoff && env.addressOf(x.rec.email) != "");
  }
}
