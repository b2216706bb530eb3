/** Algo amounts (models/amount.go): the withdrawal fee policy, the
    microalgo-to-decimal-string rendering with thousand separators, and
    half-up rounding to whole algos. */
module Amounts {
  import opened Base
  import opened Strings

  const MicroalgosPerAlgo: nat := 1_000_000

  /** `config.WithDrawalFeeDivisor` and `config.WithdrawalMinimumFee`; the file
      defining them is not part of this model, so the values are the ones the
      comment on CalculateFee gives: 0.1% with a minimum of 1000 microalgos. */
  const WithdrawalFeeDivisor: u64 := 1000
  const WithdrawalMinimumFee: u64 := 1000

  /** An amount carries its integer value and a display string; the string is
      a presentation cache computed from the value. */
  datatype Amount = Amount(Algostring: string, Microalgos: u64)

  /** `max(amount / divisor, minimum)`: never below the minimum, never below the
      proportional part, and always one of the two. */
  function CalculateFee(amount: u64): (fee: u64)
    ensures fee >= WithdrawalMinimumFee && fee >= amount / WithdrawalFeeDivisor
    ensures fee == WithdrawalMinimumFee || fee == amount / WithdrawalFeeDivisor
  {
    if amount / WithdrawalFeeDivisor >= WithdrawalMinimumFee then amount / WithdrawalFeeDivisor
    else WithdrawalMinimumFee
  }

  lemma CalculateFeeMonotone(a: u64, b: u64)
    requires a <= b
    ensures CalculateFee(a) <= CalculateFee(b)
  {
    assert a / WithdrawalFeeDivisor <= b / WithdrawalFeeDivisor;
  }

  // ------------------------------------------------------------ grouping

  /** Reference definition of thousand separators: a comma before every group
      of three digits counted from the right. */
  function Grouped(s: string): string
  {
    if |s| <= 3 then s else Grouped(s[..|s| - 3]) + [','] + s[|s| - 3..]
  }

  /** Deleting the commas from the grouped digits gives back the digits. */
  lemma {:induction false} GroupedRemoveCommas(s: string)
    requires AllDigits(s)
    ensures RemoveChar(Grouped(s), ',') == s
  {
    if |s| <= 3 {
      RemoveCharAbsent(s, ',');
    } else {
      var p, t := s[..|s| - 3], s[|s| - 3..];
      assert Grouped(s) == Grouped(p) + [','] + t;
      assert AllDigits(p) by {
        forall i | 0 <= i < |p| ensures IsDigit(p[i]) {
          assert p[i] == s[i];
        }
      }
      GroupedRemoveCommas(p);
      RemoveCommaBeforeGroup(Grouped(p), t);
      assert p + t == s;
    }
  }

  lemma RemoveCommaBeforeGroup(g: string, t: string)
    requires AllDigits(t)
    ensures RemoveChar(g + [','] + t, ',') == RemoveChar(g, ',') + t
  {
    RemoveCharAppend(g + [','], t, ',');
    RemoveCharAppend(g, [','], ',');
    assert RemoveChar([','], ',') == [] by {
      assert [','][..0] == [];
    }
    assert ',' !in t by {
      forall i | 0 <= i < |t| ensures t[i] != ',' {
        assert IsDigit(t[i]);
      }
    }
    RemoveCharAbsent(t, ',');
    assert RemoveChar(g, ',') + [] == RemoveChar(g, ',');
  }

  /** Commas stand exactly at the positions that are a multiple of 4 from the
      end, every other character is a digit, and the length is not a multiple
      of 4 (so the string starts with a digit). */
  predicate CommaLayout(r: string)
  {
    && |r| % 4 != 0
    && (forall i :: 0 <= i < |r| ==> (r[i] == ',' <==> (|r| - i) % 4 == 0))
    && (forall i :: 0 <= i < |r| ==> r[i] == ',' || IsDigit(r[i]))
  }

  lemma CommaLayoutExtend(g: string, t: string)
    requires CommaLayout(g) && |t| == 3 && AllDigits(t)
    ensures CommaLayout(g + [','] + t)
  {
    var r := g + [','] + t;
    forall i | 0 <= i < |r|
      ensures (r[i] == ',' <==> (|r| - i) % 4 == 0) && (r[i] == ',' || IsDigit(r[i]))
    {
      if i < |g| {
        assert r[i] == g[i];
        assert |r| - i == (|g| - i) + 4;
      } else if i > |g| {
        assert r[i] == t[i - |g| - 1];
        assert 1 <= |r| - i <= 3;
      }
    }
  }

  /** Shape of the grouped digits: the first group has 1 to 3 digits and every
      later group exactly 3. */
  lemma {:induction false} GroupedShape(s: string)
    requires AllDigits(s) && |s| >= 1
    ensures |Grouped(s)| == |s| + (|s| - 1) / 3
    ensures CommaLayout(Grouped(s))
  {
    if |s| > 3 {
      var p, t := s[..|s| - 3], s[|s| - 3..];
      GroupedShape(p);
      assert Grouped(s) == Grouped(p) + [','] + t;
      CommaLayoutExtend(Grouped(p), t);
    } else {
      assert |Grouped(s)| == |s|;
    }
  }

  lemma GroupedStep(s: string, i: nat)
    requires 0 < i && i + 3 <= |s|
    ensures Grouped(s[..i + 3]) == Grouped(s[..i]) + [','] + s[i..i + 3]
  {
    var u := s[..i + 3];
    assert u[..|u| - 3] == s[..i];
    assert u[|u| - 3..] == s[i..i + 3];
  }

  lemma ShortNumbersHaveNoComma(s: string)
    requires |s| <= 3
    ensures Grouped(s) == s
  {
  }

  /** What the separator loop has produced once the first i digits are
      consumed: the grouping of those digits, followed by a comma while
      digits remain. */
  ghost function Emitted(s: string, i: nat): string
    requires i <= |s|
  {
    if i == 0 then [] else Grouped(s[..i]) + (if i < |s| then [','] else [])
  }

  lemma EmittedStep(s: string, i: nat)
    requires i + 3 <= |s|
    ensures Emitted(s, i + 3) == Emitted(s, i) + s[i..i + 3] + (if i + 3 < |s| then [','] else [])
  {
    if i > 0 {
      GroupedStep(s, i);
    } else {
      assert s[..3] == s[i..i + 3];
    }
  }

  /** Before the loop: the leading partial group and its comma, if any. */
  lemma EmittedStart(s: string)
    requires |s| > 3
    ensures (|s| - |s| % 3) % 3 == 0
    ensures Emitted(s, |s| % 3) == if |s| % 3 > 0 then s[..|s| % 3] + [','] else []
  {
  }

  /** After the loop: everything is grouped. */
  lemma EmittedEnd(s: string)
    requires |s| > 0
    ensures Emitted(s, |s|) == Grouped(s)
  {
    assert s[..|s|] == s;
  }

  /** `addThousandSeparators`: the Go loop that emits the leading partial group
      and then the full groups of three, proved to produce the reference grouping. */
  method AddThousandSeparators(n: u64) returns (r: string)
    ensures r == Grouped(Decimal(n))
  {
    var s := Decimal(n);
    if |s| <= 3 {
      ShortNumbersHaveNoComma(s);
      return s;
    }
    var remainder := |s| % 3;
    EmittedStart(s);
    var result: string := [];
    if remainder > 0 {
      result := result + s[..remainder];
      result := result + [','];
    }
    var i := remainder;
    while i < |s|
      invariant i <= |s| && (|s| - i) % 3 == 0
      invariant result == Emitted(s, i)
    {
      EmittedStep(s, i);
      result := result + s[i..i + 3];
      if i + 3 < |s| {
        result := result + [','];
      }
      i := i + 3;
    }
    EmittedEnd(s);
    r := result;
  }

  // ------------------------------------------------------------ rendering

  /** The fractional digits of an amount: six zero-padded digits with the
      trailing zeros removed. Empty exactly when the amount is whole; padding
      it back to six digits gives the sub-algo remainder. */
  function Fraction(m: u64): (f: string)
    ensures AllDigits(f) && |f| <= 6
    ensures f != [] ==> f[|f| - 1] != '0'
    ensures f == [] <==> m % MicroalgosPerAlgo == 0
    ensures DecimalValue(f + Repeat('0', 6 - |f|)) == m % MicroalgosPerAlgo
  {
    FractionFacts(m % MicroalgosPerAlgo);
    TrimTrailingZeros(ZeroPadded(m % MicroalgosPerAlgo, 6))
  }

  lemma FractionFacts(rem: nat)
    requires rem < MicroalgosPerAlgo
    ensures var f := TrimTrailingZeros(ZeroPadded(rem, 6));
      && AllDigits(f) && |f| <= 6
      && (f == [] <==> rem == 0)
      && DecimalValue(f + Repeat('0', 6 - |f|)) == rem
  {
    var padded := ZeroPadded(rem, 6);
    DecimalLength(rem, 6);
    ZeroPaddedValue(rem, 6);
    assert |padded| == 6;
    var f := TrimTrailingZeros(padded);
    if f == [] {
      TrimmedToEmptyIsZero(padded);
    }
    if rem == 0 {
      ZeroFractionIsEmpty();
    }
  }

  lemma TrimmedToEmptyIsZero(s: string)
    requires TrimTrailingZeros(s) == []
    ensures DecimalValue(s) == 0
  {
    assert s == Repeat('0', |s|);
    ZerosDecimalValue(|s|);
  }

  lemma ZeroFractionIsEmpty()
    ensures TrimTrailingZeros(ZeroPadded(0, 6)) == []
  {
    assert Decimal(0) == "0";
    assert ZeroPadded(0, 6) == "000000";
    assert TrimTrailingZeros("000000") == TrimRightBy("000000", c => c == '0');
  }

  /** `MicroAlgosToAlgoString`: grouped whole algos, then '.' and the trimmed
      fraction when the amount is not whole. */
  function MicroAlgosToAlgoString(microalgos: u64): (s: string)
    ensures '.' in s <==> microalgos % MicroalgosPerAlgo != 0
  {
    var whole := Grouped(Decimal(microalgos / MicroalgosPerAlgo));
    GroupedShape(Decimal(microalgos / MicroalgosPerAlgo));
    var frac := Fraction(microalgos);
    if frac == [] then whole else whole + ['.'] + frac
  }

  /** Reads a display string back as microalgos: the text after the last '.'
      is the fraction, commas in the whole part are ignored. */
  function ParseAlgoString(s: string): Option<nat>
  {
    var dot := LastIndexOf(s, '.');
    if dot < 0 then ParseParts(s, []) else ParseParts(s[..dot], s[dot + 1..])
  }

  /** A whole part (digits and commas) and a fraction of at most six digits,
      right-padded with zeros to microalgos. */
  function ParseParts(wholeText: string, frac: string): Option<nat>
  {
    var digits := RemoveChar(wholeText, ',');
    if digits == [] || !AllDigits(digits) || !AllDigits(frac) || |frac| > 6 then None
    else Some(DecimalValue(digits) * MicroalgosPerAlgo + DecimalValue(frac + Repeat('0', 6 - |frac|)))
  }

  /** The separator between a whole part and a fraction that do not contain it
      is the last occurrence of it. */
  lemma {:induction false} LastIndexOfSeparator(whole: string, frac: string, c: char)
    requires c !in whole && c !in frac
    ensures LastIndexOf(whole + [c] + frac, c) == |whole|
  {
    var s := whole + [c] + frac;
    if frac != [] {
      var init := frac[..|frac| - 1];
      assert s[|s| - 1] == frac[|frac| - 1];
      assert s[..|s| - 1] == whole + [c] + init;
      LastIndexOfSeparator(whole, init, c);
    }
  }

  lemma ParsePartsValue(whole: string, frac: string, m: u64)
    requires AllDigits(frac) && |frac| <= 6
    requires AllDigits(RemoveChar(whole, ',')) && RemoveChar(whole, ',') != []
    requires DecimalValue(RemoveChar(whole, ',')) == m / MicroalgosPerAlgo
    requires DecimalValue(frac + Repeat('0', 6 - |frac|)) == m % MicroalgosPerAlgo
    ensures ParseParts(whole, frac) == Some(m)
  {
  }

  /** A whole part without '.' is parsed as a whole. */
  lemma ParseWhole(whole: string)
    requires '.' !in whole
    ensures ParseAlgoString(whole) == ParseParts(whole, [])
  {
  }

  /** With a fraction, the split happens at the '.' that was inserted. */
  lemma ParseWithFraction(whole: string, frac: string)
    requires '.' !in whole && AllDigits(frac)
    ensures ParseAlgoString(whole + ['.'] + frac) == ParseParts(whole, frac)
  {
    var s := whole + ['.'] + frac;
    assert '.' !in frac by {
      forall i | 0 <= i < |frac| ensures frac[i] != '.' {
        assert IsDigit(frac[i]);
      }
    }
    LastIndexOfSeparator(whole, frac, '.');
    assert s[..|whole|] == whole && s[|whole| + 1..] == frac;
  }

  /** Round trip: the display string denotes exactly the amount it was made from. */
  lemma AlgoStringRoundTrip(m: u64)
    ensures ParseAlgoString(MicroAlgosToAlgoString(m)) == Some(m)
  {
    var digits := Decimal(m / MicroalgosPerAlgo);
    var whole := Grouped(digits);
    GroupedShape(digits);
    GroupedRemoveCommas(digits);
    DecimalRoundTrip(m / MicroalgosPerAlgo);
    assert '.' !in whole by {
      forall i | 0 <= i < |whole| ensures whole[i] != '.' {
        assert whole[i] == ',' || IsDigit(whole[i]);
      }
    }
    var frac := Fraction(m);
    ParsePartsValue(whole, frac, m);
    if frac == [] {
      ParseWhole(whole);
      assert frac + Repeat('0', 6) == Repeat('0', 6);
      ZerosDecimalValue(6);
    } else {
      ParseWithFraction(whole, frac);
    }
  }

  /** `NewAmount`: the value is kept, and the display string is rendered
      from it. */
  function NewAmount(microalgos: u64): (a: Amount)
    ensures a.Microalgos == microalgos && Consistent(a)
  {
    Amount(MicroAlgosToAlgoString(microalgos), microalgos)
  }

  /** The display string of a new amount denotes exactly its value. */
  lemma NewAmountReadsBack(microalgos: u64)
    ensures ParseAlgoString(NewAmount(microalgos).Algostring) == Some(microalgos)
  {
    AlgoStringRoundTrip(microalgos);
  }

  /** An amount whose display string is the one rendered from its value. */
  predicate Consistent(a: Amount)
  {
    a.Algostring == MicroAlgosToAlgoString(a.Microalgos)
  }

  /** `Amount.Fee`: a consistent amount holding the fee for this amount (the
      receiver is a value and cannot change). */
  function Fee(withdrawal: Amount): (fee: Amount)
    ensures Consistent(fee)
    ensures fee.Microalgos == CalculateFee(withdrawal.Microalgos)
    ensures fee.Microalgos >= WithdrawalMinimumFee
  {
    NewAmount(CalculateFee(withdrawal.Microalgos))
  }

  // ------------------------------------------------------------ rounding

  /** Whole algos rounded half-up: the unique w with
      w*10^6 - 500000 <= m < w*10^6 + 500000. */
  function RoundHalfUp(m: u64): (w: nat)
    ensures w * MicroalgosPerAlgo <= m + 500_000 < w * MicroalgosPerAlgo + MicroalgosPerAlgo
    ensures w == (m + 500_000) / MicroalgosPerAlgo
  {
    var whole := m / MicroalgosPerAlgo;
    if m % MicroalgosPerAlgo >= 500_000 then whole + 1 else whole
  }

  /** `Amount.Round`: keeps the value and replaces the display string by the
      grouped whole algos rounded half-up. The source updates the receiver in
      place and returns it; here the updated amount is returned. */
  method Round(a: Amount) returns (r: Amount)
    ensures r.Microalgos == a.Microalgos
    ensures r.Algostring == Grouped(Decimal(RoundHalfUp(a.Microalgos)))
    ensures RemoveChar(r.Algostring, ',') == Decimal(RoundHalfUp(a.Microalgos))
  {
    var wholeAlgos := a.Microalgos / 1_000_000;
    var remainingMicroAlgos := a.Microalgos % 1_000_000;
    if remainingMicroAlgos >= 500_000 {
      wholeAlgos := wholeAlgos + 1;
    }
    var s := AddThousandSeparators(wholeAlgos);
    GroupedRemoveCommas(Decimal(wholeAlgos));
    r := a.(Algostring := s);
  }
}
