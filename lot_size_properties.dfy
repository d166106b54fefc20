/** What the quantity normaliser guarantees, in exact arithmetic: the floor
    onto the step grid, a re-rendering that loses nothing, the minimum kept
    only when it lies on the grid, and idempotence. */
module LotSizeProperties {
  import opened Results
  import opened DecimalText
  import opened BinanceClient

  // ---------------------------------------------------------------------------
  // Arithmetic on the step grid

  lemma QuotientMonotone(a: real, b: real, s: real)
    requires a <= b && s > 0.0
    ensures a / s <= b / s
  {
  }

  lemma QuotientStrict(a: real, b: real, s: real)
    requires a < b && s > 0.0
    ensures a / s < b / s
  {
  }

  lemma QuotientOf(x: real, y: real, s: real)
    requires s > 0.0 && x * s == y
    ensures x == y / s
  {
  }

  lemma QuotientShift(r: real, s: real)
    requires s > 0.0
    ensures (r + s) / s == r / s + 1.0
  {
    assert (r / s) * s == r;
    assert (r / s + 1.0) * s == r + s;
    QuotientOf(r / s + 1.0, r + s, s);
  }

  /** The flooring is the only whole number of steps in `(qty - step, qty]`. */
  lemma QuantizeUnique(qty: real, step: real, r: real)
    requires step > 0.0 && IsMultiple(r, step) && r <= qty < r + step
    ensures Quantize(qty, step) == r
  {
    var j := (r / step).Floor;
    assert j as real <= qty / step < j as real + 1.0 by {
      QuotientMonotone(r, qty, step);
      QuotientStrict(qty, r + step, step);
      QuotientShift(r, step);
    }
    assert FloorSteps(qty, step) == j;
    QuotientTimesStep(r, step);
  }

  lemma CastMonotone(i: int, j: int)
    requires i <= j
    ensures i as real <= j as real
  {
  }

  lemma QuantizeIs(qty: real, step: real)
    requires step > 0.0
    ensures Quantize(qty, step) == FloorSteps(qty, step) as real * step
  {
  }

  lemma OrderedProducts(qa: real, qb: real, x: real, y: real, step: real)
    requires x <= y && step > 0.0 && qa == x * step && qb == y * step
    ensures qa <= qb
  {
    ScaleMonotone(x, y, step);
  }

  /** Flooring onto the grid keeps the order of quantities. */
  lemma QuantizeMonotone(a: real, b: real, step: real)
    requires step > 0.0 && a <= b
    ensures Quantize(a, step) <= Quantize(b, step)
  {
    var i := FloorSteps(a, step);
    var j := FloorSteps(b, step);
    assert i <= j by {
      QuotientMonotone(a, b, step);
    }
    CastMonotone(i, j);
    QuantizeIs(a, step);
    QuantizeIs(b, step);
    OrderedProducts(Quantize(a, step), Quantize(b, step), i as real, j as real, step);
  }

  lemma IntegerCast(a: int)
    ensures IsInteger(a as real)
  {
  }

  lemma IntegerProduct(r: real, s: real, t: real, j: int, m: int)
    requires r == j as real * s && s * t == m as real
    ensures r * t == (j * m) as real
  {
    assert r * t == j as real * (s * t);
    assert (j * m) as real == j as real * m as real;
  }

  /** A whole number of steps needs no more decimals than the step itself. */
  lemma MultipleHasPlaces(r: real, step: real, places: nat)
    requires step > 0.0 && IsMultiple(r, step) && HasPlaces(step, places)
    ensures HasPlaces(r, places)
  {
    var j := (r / step).Floor;
    var m := (step * TenTo(places)).Floor;
    assert r * TenTo(places) == (j * m) as real by {
      assert r == j as real * step by {
        QuotientTimesStep(r, step);
      }
      assert step * TenTo(places) == m as real;
      IntegerProduct(r, step, TenTo(places), j, m);
    }
    IntegerCast(j * m);
  }

  // ---------------------------------------------------------------------------
  // The normaliser

  /** With a positive step read from its own text, the re-rendering at the
      step's decimal places loses nothing: the result is the floored quantity. */
  lemma RenderIsLossless(rule: LotRule, quantity: real)
    requires WellFormed(rule) && rule.stepSize > 0.0
    ensures Normalize(rule, quantity) == Quantize(Clamp(quantity, rule.minQty), rule.stepSize)
  {
    var stepped := Quantize(Clamp(quantity, rule.minQty), rule.stepSize);
    var places := FractionDigitCount(rule.stepText);
    StepHasPlaces(rule.stepText, rule.stepSize);
    MultipleHasPlaces(stepped, rule.stepSize, places);
    RenderExact(stepped, places);
  }

  /** With a positive step the result is a whole number of steps, at most the
      clamped quantity and less than one step below it: a floor, never a
      rounding up. */
  lemma NormalizeFloorsToStep(rule: LotRule, quantity: real)
    requires WellFormed(rule) && rule.stepSize > 0.0
    ensures var r := Normalize(rule, quantity);
            var clamped := Clamp(quantity, rule.minQty);
            && IsMultiple(r, rule.stepSize)
            && r <= clamped < r + rule.stepSize
  {
    RenderIsLossless(rule, quantity);
  }

  /** Without a positive step nothing is floored: the clamped quantity is
      rendered at the step's decimal places, and the result has that many
      decimals at most. */
  lemma NormalizeUnstepped(rule: LotRule, quantity: real)
    requires rule.stepSize <= 0.0
    ensures Normalize(rule, quantity) == Render(Clamp(quantity, rule.minQty), FractionDigitCount(rule.stepText))
    ensures HasPlaces(Normalize(rule, quantity), FractionDigitCount(rule.stepText))
  {
    RenderHasPlaces(Clamp(quantity, rule.minQty), FractionDigitCount(rule.stepText));
  }

  /** A zero step ("0.00000000") has no decimal places, so the clamped
      quantity is rounded to the nearest whole number, ties to even. */
  lemma NormalizeZeroStep(rule: LotRule, quantity: real)
    requires WellFormed(rule) && rule.stepSize == 0.0
    ensures Normalize(rule, quantity) == RoundHalfEven(Clamp(quantity, rule.minQty)) as real
  {
    ZeroStepHasNoPlaces(rule.stepText);
    RenderAtNoPlaces(Clamp(quantity, rule.minQty));
  }

  /** When the minimum is itself a whole number of steps, the result never
      falls below it. */
  lemma MinRespectedWhenAligned(rule: LotRule, quantity: real)
    requires WellFormed(rule) && rule.stepSize > 0.0 && IsMultiple(rule.minQty, rule.stepSize)
    ensures Normalize(rule, quantity) >= rule.minQty
  {
    var clamped := Clamp(quantity, rule.minQty);
    RenderIsLossless(rule, quantity);
    QuantizeMonotone(rule.minQty, clamped, rule.stepSize);
    QuantizeUnique(rule.minQty, rule.stepSize, rule.minQty);
  }

  /** A minimum off the grid can be missed: with minimum 0.15 and step "0.1",
      a request for 0.15 is floored to 0.1. */
  lemma MinMissedWhenUnaligned()
    ensures WellFormed(LotRule(0.15, 0.1, "0.1"))
    ensures Normalize(LotRule(0.15, 0.1, "0.1"), 0.15) == 0.1 < 0.15
  {
    var rule := LotRule(0.15, 0.1, "0.1");
    assert Lex("0.1") == Some(Numeral(false, "01", 1)) by {
      assert Unsigned("0.1") == "0.1";
      IndexOfFirst("0.1", '.', 1);
      assert WholeDigits("0.1") == "0" && FractionDigits("0.1") == "1";
      assert AllDigits("0") && AllDigits("1");
      assert "0" + "1" == "01";
    }
    assert DigitsValue("01") == 1 by {
      assert "01"[..1] == "0";
    }
    assert IsMultiple(0.1, 0.1);
    QuantizeUnique(0.15, 0.1, 0.1);
    RenderIsLossless(rule, 0.15);
  }

  /** Normalising a normalised quantity again changes nothing. */
  lemma NormalizeIdempotent(rule: LotRule, quantity: real)
    requires WellFormed(rule)
    ensures Normalize(rule, Normalize(rule, quantity)) == Normalize(rule, quantity)
  {
    var r := Normalize(rule, quantity);
    var clamped := Clamp(quantity, rule.minQty);
    var again := Clamp(r, rule.minQty);
    if rule.stepSize > 0.0 {
      RenderIsLossless(rule, quantity);
      RenderIsLossless(rule, r);
      QuantizeUnique(again, rule.stepSize, r);
    } else {
      var places := FractionDigitCount(rule.stepText);
      NormalizeUnstepped(rule, quantity);
      NormalizeUnstepped(rule, r);
      if r >= rule.minQty {
        RenderExact(r, places);
      } else {
        RenderMonotone(rule.minQty, clamped, places);
        RenderMonotone(r, rule.minQty, places);
        RenderExact(r, places);
      }
    }
  }

  /** `adjust_quantity_to_lot` applied to its own result returns it unchanged. */
  lemma AdjustIdempotent(info: Option<SymbolInfo>, quantity: real)
    requires AdjustQuantityToLot(info, quantity).Ok?
    ensures AdjustQuantityToLot(info, AdjustQuantityToLot(info, quantity).value)
            == AdjustQuantityToLot(info, quantity)
  {
    var rule := LotRuleOf(LotSizeFilter(info).value).value;
    NormalizeIdempotent(rule, quantity);
  }

  // ---------------------------------------------------------------------------
  // Two worked cases

  /** A LOT_SIZE filter as the exchange sends it. */
  function LotFilter(minQty: string, stepSize: string): (f: Filter)
    ensures IsLotSize(f) && "minQty" in f && "stepSize" in f
    ensures f["minQty"] == minQty && f["stepSize"] == stepSize
  {
    map["filterType" := "LOT_SIZE", "minQty" := minQty, "stepSize" := stepSize]
  }

  /** With a single LOT_SIZE filter, the adjustment is that filter's rule. */
  lemma AdjustWithOneFilter(lot: Filter, rule: LotRule, quantity: real)
    requires IsLotSize(lot) && LotRuleOf(lot) == Ok(rule)
    ensures AdjustQuantityToLot(Some(SymbolInfo(Some([lot]))), quantity) == Ok(Normalize(rule, quantity))
  {
    assert LotSizeFilter(Some(SymbolInfo(Some([lot])))) == Ok(lot);
  }

  lemma ParseTenThousandth()
    ensures ParseNumber("0.0001") == Some(0.0001)
  {
    assert "0." + "0001" == "0.0001";
    assert Shift(DigitsValue("0001"), 4) == 0.0001 by {
      assert DigitsValue("0001") == 1 by {
        LeadingZeros(3, "1");
        assert Zeros(3) + "1" == "0001";
      }
      assert TenTo(4) == 10000.0;
    }
    ParsePointFraction("0001");
  }

  lemma ParseHundredThousandth()
    ensures ParseNumber("0.00001") == Some(0.00001)
  {
    assert "0." + "00001" == "0.00001";
    assert Shift(DigitsValue("00001"), 5) == 0.00001 by {
      assert DigitsValue("00001") == 1 by {
        LeadingZeros(4, "1");
        assert Zeros(4) + "1" == "00001";
      }
      assert TenTo(5) == 100000.0;
    }
    ParsePointFraction("00001");
  }

  lemma ParseHundredth()
    ensures ParseNumber("0.01") == Some(0.01)
  {
    assert "0." + "01" == "0.01";
    assert Shift(DigitsValue("01"), 2) == 0.01 by {
      assert DigitsValue("01") == 1 by {
        LeadingZeros(1, "1");
        assert Zeros(1) + "1" == "01";
      }
      assert TenTo(2) == 100.0;
    }
    ParsePointFraction("01");
  }

  /** Minimum "0.0001", step "0.00001": 0.0015678 is floored to 0.00156. */
  lemma FloorsToFiveDecimals()
    ensures AdjustQuantityToLot(Some(SymbolInfo(Some([LotFilter("0.0001", "0.00001")]))), 0.0015678)
            == Ok(0.00156)
  {
    var rule := LotRule(0.0001, 0.00001, "0.00001");
    assert LotRuleOf(LotFilter("0.0001", "0.00001")) == Ok(rule) by {
      ParseTenThousandth();
      ParseHundredThousandth();
    }
    assert Normalize(rule, 0.0015678) == 0.00156 by {
      assert IsMultiple(0.00156, 0.00001);
      QuantizeUnique(0.0015678, 0.00001, 0.00156);
      RenderIsLossless(rule, 0.0015678);
    }
    AdjustWithOneFilter(LotFilter("0.0001", "0.00001"), rule, 0.0015678);
  }

  /** Minimum "0.01", step "0.01": 0.001 is raised to the minimum. */
  lemma ClampsToMinimum()
    ensures AdjustQuantityToLot(Some(SymbolInfo(Some([LotFilter("0.01", "0.01")]))), 0.001)
            == Ok(0.01)
  {
    var rule := LotRule(0.01, 0.01, "0.01");
    assert LotRuleOf(LotFilter("0.01", "0.01")) == Ok(rule) by {
      ParseHundredth();
    }
    assert Normalize(rule, 0.001) == 0.01 by {
      assert IsMultiple(0.01, 0.01);
      QuantizeUnique(0.01, 0.01, 0.01);
      RenderIsLossless(rule, 0.001);
    }
    AdjustWithOneFilter(LotFilter("0.01", "0.01"), rule, 0.001);
  }
}
