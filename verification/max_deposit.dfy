/** The maximum-deposit endpoint (handlers/max_deposit.go): its guard
    order, and the plain decimal it puts in the deposit form's input. */
module MaxDeposit {
  import opened Base
  import opened Strings
  import opened Amounts

  /** `microAlgosToInputAmount`: whole algos in plain decimal, then '.' and
      the six-digit fraction with its trailing zeros removed, when there is
      a fraction. */
  function MicroAlgosToInputAmount(microalgos: u64): (s: string)
    ensures '.' in s <==> microalgos % MicroalgosPerAlgo != 0
    ensures ',' !in s
  {
    var whole := Decimal(microalgos / MicroalgosPerAlgo);
    var fraction := Fraction(microalgos);
    NoSeparatorsInDigits(whole);
    NoSeparatorsInDigits(fraction);
    if fraction == [] then whole else whole + ['.'] + fraction
  }

  lemma NoSeparatorsInDigits(s: string)
    requires AllDigits(s)
    ensures '.' !in s && ',' !in s
  {
    forall i | 0 <= i < |s| ensures s[i] != '.' && s[i] != ',' {
      assert IsDigit(s[i]);
    }
  }

  /** The input value is the display string with its thousand separators
      removed. */
  lemma {:induction false} InputAmountIsAlgoStringWithoutCommas(microalgos: u64)
    ensures MicroAlgosToInputAmount(microalgos) == RemoveChar(MicroAlgosToAlgoString(microalgos), ',')
  {
    var digits := Decimal(microalgos / MicroalgosPerAlgo);
    var grouped := Grouped(digits);
    GroupedRemoveCommas(digits);
    var fraction := Fraction(microalgos);
    NoSeparatorsInDigits(fraction);
    if fraction != [] {
      RemoveCharAppend(grouped + ['.'], fraction, ',');
      RemoveCharAppend(grouped, ['.'], ',');
      RemoveCharAbsent(['.'], ',');
      RemoveCharAbsent(fraction, ',');
    }
  }

  /** Read back as a decimal number of algos, the input value is the amount
      it was made from. */
  lemma InputAmountRoundTrip(microalgos: u64)
    ensures ParseAlgoString(MicroAlgosToInputAmount(microalgos)) == Some(microalgos)
  {
    var whole := Decimal(microalgos / MicroalgosPerAlgo);
    DecimalRoundTrip(microalgos / MicroalgosPerAlgo);
    NoSeparatorsInDigits(whole);
    RemoveCharAbsent(whole, ',');
    var fraction := Fraction(microalgos);
    ParsePartsValue(whole, fraction, microalgos);
    if fraction == [] {
      ParseWhole(whole);
      assert fraction + Repeat('0', 6) == Repeat('0', 6);
      ZerosDecimalValue(6);
    } else {
      ParseWithFraction(whole, fraction);
    }
  }

  datatype Reply = Reply(status: int, body: string)

  /** `MaxDepositHandler`: the method is checked first, then that an address
      was given, then that it parses; only then is the maximum computed.
      `address` is the address parser's result and `maxAmount` that of
      `maxDepositAmount`, neither of which is part of this model. The body
      of a success is the input's value. */
  function MaxDepositReply(isGet: bool, addressInput: string, address: Option<string>,
                           maxAmount: Result<u64>): (r: Reply)
    ensures r.status == 405 <==> !isGet
    ensures r.status == 400 <==> isGet && addressInput == ""
    ensures r.status == 422 <==> isGet && addressInput != "" && address.None?
    ensures r.status == 500 <==> isGet && addressInput != "" && address.Some? && maxAmount.Err?
    ensures r.status == 200 <==> isGet && addressInput != "" && address.Some? && maxAmount.Ok?
    ensures r.status == 200 ==> r.body == MicroAlgosToInputAmount(maxAmount.value)
  {
    if !isGet then Reply(405, "Method Not Allowed")
    else if addressInput == "" then Reply(400, "address is required")
    else if address.None? then Reply(422, "invalid address")
    else if maxAmount.Err? then Reply(500, "failed to compute max deposit amount")
    else Reply(200, MicroAlgosToInputAmount(maxAmount.value))
  }
}
