/** Worked cases of the pipeline's documented behaviour, on concrete rows. */
module Examples {
  import opened Outcomes
  import opened Tables
  import opened Text
  import opened Orders
  import opened Cleaning
  import opened Rules
  import opened Rescue
  import opened Partition
  import opened Validator

  function SimpleOrder(state: string, zipcode: int): Order
  {
    Order(0, "n", state, zipcode, 0, "e", [])
  }

  /** Rows (A, Z), (A, Z), (B, Y): only the first row's label is rescued. */
  lemma RescueExample()
    ensures Rescued([Labelled(0, SimpleOrder("A", 10001)), Labelled(1, SimpleOrder("A", 10001)),
                     Labelled(2, SimpleOrder("B", 20002))]) == [0]
  {
    var rows := [Labelled(0, SimpleOrder("A", 10001)), Labelled(1, SimpleOrder("A", 10001)),
                 Labelled(2, SimpleOrder("B", 20002))];
    assert rows[..2][..1] == rows[..1];
    assert rows[..2] == rows[..3][..2];
    assert Rescued(rows[..2]) == [0];
  }

  /** Zipcode 99999 has digit sum 45 and fails rule 5. */
  lemma DigitSumRejects99999()
    ensures !DigitSumOk(SimpleOrder("NY", 99999))
  {
    TextDigitSumOfInt(99999);
    assert DigitSum(99999) == 45;
  }

  /** The text "02000" converts to the integer 2000: the leading zero is lost. */
  lemma LeadingZeroConverts()
    ensures ParseInt("02000") == Some(2000)
  {
    assert "02000"[..4] == "0200" && "0200"[..3] == "020" && "020"[..2] == "02" && "02"[..1] == "0";
    assert DigitsValue("0") == 0;
    assert DigitsValue("02") == 2;
    assert DigitsValue("020") == 20;
    assert DigitsValue("0200") == 200;
  }

  /** Zipcode 2000 has digit sum 2 and passes rule 5 ... */
  lemma Zip2000PassesDigitSum()
    ensures DigitSumOk(SimpleOrder("NY", 2000))
  {
    TextDigitSumOfInt(2000);
    assert DigitSum(20) == 2;
    assert DigitSum(200) == 2;
    assert DigitSum(2000) == 2;
  }

  /** ... but its text "2000" has 4 characters, so rule 2 rejects it. */
  lemma Zip2000FailsLength()
    ensures !ZipLengthOk(SimpleOrder("NY", 2000))
  {
  }

  /** An invalid row named "Smith" is output as "htimS". */
  lemma NameReversalExample()
    ensures Reverse("Smith") == "htimS"
  {
    assert Reverse("h") == "h";
    assert Reverse("th") == "ht";
    assert Reverse("ith") == "hti";
    assert Reverse("mith") == "htim";
  }

  /** A loaded table: row 0 ships to a banned state, row 1 passes every rule. */
  function TwoOrders(birthday: int): seq<RawOrder>
  {
    [RawOrder(Val("1"), Val("Smith"), Val("NJ"), Val("07001"), Val(birthday), Val("a@x.org"), []),
     RawOrder(Val("2"), Val("Jones"), Val("NY"), Val("10001"), Val(birthday), Val("b@y.org"), [])]
  }

  function TwoOrdersCleaned(birthday: int): seq<Row>
  {
    [Labelled(0, Order(1, "Smith", "NJ", 7001, birthday, "a@x.org", [])),
     Labelled(1, Order(2, "Jones", "NY", 10001, birthday, "b@y.org", []))]
  }

  lemma TwoOrdersTexts()
    ensures ParseInt("07001") == Some(7001) && ParseInt("10001") == Some(10001)
    ensures ParseInt("1") == Some(1) && ParseInt("2") == Some(2)
  {
    assert "07001"[..4] == "0700" && "0700"[..3] == "070" && "070"[..2] == "07" && "07"[..1] == "0";
    assert DigitsValue("0700") == 700;
    assert "10001"[..4] == "1000" && "1000"[..3] == "100" && "100"[..2] == "10" && "10"[..1] == "1";
    assert DigitsValue("1000") == 1000;
  }

  lemma TwoOrdersConvert(birthday: int)
    ensures forall i :: 0 <= i < 2 ==>
      NoNulls(TwoOrders(birthday)[i]) && Converted(TwoOrders(birthday)[i]) == Some(TwoOrdersCleaned(birthday)[i].rec)
  {
    var t := TwoOrders(birthday);
    var e := TwoOrdersCleaned(birthday);
    TwoOrdersTexts();
    NoNullsIff(t[0]);
    NoNullsIff(t[1]);
    assert Converted(t[0]).value.others == [];
    assert Converted(t[1]).value.others == [];
  }

  lemma TwoOrdersClean(birthday: int)
    ensures Clean(LabelRows(TwoOrders(birthday))) == Ok(TwoOrdersCleaned(birthday))
  {
    var t := LabelRows(TwoOrders(birthday));
    TwoOrdersConvert(birthday);
    assert forall x :: x in t ==> x == t[0] || x == t[1];
    FilterKeepsAll(t, (x: RawRow) => NoNulls(x.rec));
    assert DropNulls(t) == t;
    var c := ConvertRows(t);
    assert c == TwoOrdersCleaned(birthday);
  }

  lemma TwoOrdersRules(birthday: int, env: Env)
    requires birthday <= env.cutoff && env.addressOf("b@y.org") != ""
    ensures RulesChain(TwoOrdersCleaned(birthday), env) == Ok([TwoOrdersCleaned(birthday)[1]])
  {
    var c := TwoOrdersCleaned(birthday);
    var r1 := Rule1(c);
    assert "NJ" in BadStates && "NY" !in BadStates;
    assert r1 == [c[1]];
    FiveOrNineChars10001();
    assert Rule2(r1) == r1;
    assert Rule3(r1, env.cutoff) == r1;
    assert Rule4(r1, env.addressOf) == r1;
    TextDigitSumOfInt(10001);
    assert DigitSum(10001) == 2 by {
      assert DigitSum(10) == 1 && DigitSum(100) == 1 && DigitSum(1000) == 1;
    }
    assert Rule5(r1) == Ok(r1);
  }

  lemma FiveOrNineChars10001()
    ensures FiveOrNineChars(10001)
  {
  }

  lemma TwoOrdersValidRows(birthday: int)
    ensures ValidRows(TwoOrders(birthday), {1}) == [Labelled(1, TwoOrders(birthday)[1])]
  {
    var table := TwoOrders(birthday);
    var vr := ValidRows(table, {1});
    assert Labelled(1, table[1]) in vr;
    assert forall x :: x in vr ==> x == Labelled(1, table[1]);
    assert |vr| == 1;
  }

  lemma TwoOrdersInvalidRows(birthday: int)
    ensures InvalidRows(TwoOrders(birthday), {1}) == [Labelled(0, TwoOrders(birthday)[0].(name := Val("htimS")))]
  {
    var table := TwoOrders(birthday);
    var t := LabelRows(table);
    assert t == [Labelled(0, table[0]), Labelled(1, table[1])];
    var valid: set<nat> := {1};
    var keep := (x: RawRow) => x.index !in valid && x.rec.name.Val?;
    assert RejectedRows(table, valid) == Filter(t, keep);
    assert t[1..][1..] == [];
    assert Filter(t[1..], keep) == [];
    assert Filter(t, keep) == [t[0]];
    NameReversalExample();
  }

  /** Neither example row is rescued, so only the kept NY row is valid. */
  lemma TwoOrdersValidLabels(birthday: int)
    ensures ValidLabels(Rescued(TwoOrdersCleaned(birthday)), [TwoOrdersCleaned(birthday)[1]]) == {1}
  {
    var c := TwoOrdersCleaned(birthday);
    assert Rescued(c) == [];
  }

  lemma TwoOrdersPartition(birthday: int)
    ensures Partitioned(TwoOrders(birthday), {1}, false) ==
      Outputs([Brief(1, Val("2"), Val("Jones"))], [Brief(0, Val("1"), Val("htimS"))])
  {
    var table := TwoOrders(birthday);
    TwoOrdersValidRows(birthday);
    TwoOrdersInvalidRows(birthday);
    assert Project([Labelled(1, table[1])], false) == [Brief(1, Val("2"), Val("Jones"))];
    assert Project([Labelled(0, table[0].(name := Val("htimS")))], false) == [Brief(0, Val("1"), Val("htimS"))];
  }

  /**
   * End to end: the banned-state row is invalid with its name reversed, the
   * other row is valid, and only `id` and `name` are output.
   */
  lemma TwoOrdersValidate(birthday: int, env: Env)
    requires birthday <= env.cutoff && env.addressOf("b@y.org") != ""
    ensures Validate(TwoOrders(birthday), env, false) ==
      Ok(Outputs([Brief(1, Val("2"), Val("Jones"))], [Brief(0, Val("1"), Val("htimS"))]))
  {
    var table := TwoOrders(birthday);
    var c := TwoOrdersCleaned(birthday);
    TwoOrdersClean(birthday);
    TwoOrdersRules(birthday, env);
    TwoOrdersValidLabels(birthday);
    TwoOrdersPartition(birthday);
    ValidateSteps(table, env, false);
  }

  /**
   * With rule 5 raising, the order of the rules decides whether a run
   * completes: on an order to a banned state with a negative zipcode, rule 1
   * first removes it, while rule 5 first raises on it.
   */
  lemma OrderDecidesRaise(env: Env)
    ensures RaisingChain([Labelled(0, Order(1, "n", "NJ", -1234, 0, "e", []))], [BannedState, ZipDigitSum], env) == Ok([])
    ensures RaisingChain([Labelled(0, Order(1, "n", "NJ", -1234, 0, "e", []))], [ZipDigitSum, BannedState], env).Err?
  {
    var rows := [Labelled(0, Order(1, "n", "NJ", -1234, 0, "e", []))];
    assert BadStates[0] == "NJ";
    assert Filter(rows, KeepFn(BannedState, env)) == [];
    assert rows[0] in rows && rows[0].rec.zipcode < 0;
    assert Step(rows, ZipDigitSum, env).Err?;
  }
}
