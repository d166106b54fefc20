/** The deterministic part of the exchange client: the LOT_SIZE filter lookup,
    the quantity normaliser that fits an order onto the lot-size grid, the
    non-zero balance filter and the checks a market order passes before it is
    sent. The exchange's answers (symbol information, account balances) are
    parameters; the requests themselves are not modelled. */
module BinanceClient {
  import opened Results
  import opened DecimalText

  /** The ways the modelled code fails: the two `ValueError`s of the filter
      lookup, a missing dictionary key (`KeyError`), text `float()` refuses,
      and the two `ValueError`s of the order checks. */
  datatype Error =
    | InvalidSymbol
    | NoLotSizeFilter
    | MissingKey(key: string)
    | InvalidNumber(text: string)
    | InvalidSide
    | InvalidQuantity

  /** One entry of a symbol's "filters" list: a dictionary of text fields. */
  type Filter = map<string, string>

  /** What the exchange returns for a symbol. `None` stands for every answer
      Python treats as false (no information, an empty dictionary); `filters`
      is `None` when the answer lacks the "filters" key. */
  datatype SymbolInfo = SymbolInfo(filters: Option<seq<Filter>>)

  // ---------------------------------------------------------------------------
  // LOT_SIZE filter lookup

  predicate IsLotSize(f: Filter) {
    "filterType" in f && f["filterType"] == "LOT_SIZE"
  }

  /** The scan reads "filterType" of every filter it passes over, so each of
      them must have one, and none of them is the LOT_SIZE filter. */
  predicate PassedOver(filters: seq<Filter>, i: nat)
    requires i <= |filters|
  {
    forall j :: 0 <= j < i ==> "filterType" in filters[j] && !IsLotSize(filters[j])
  }

  /** The first LOT_SIZE filter, scanning in list order. */
  function FirstLotSize(filters: seq<Filter>): (r: Result<Filter, Error>)
    ensures r.Ok? ==> IsLotSize(r.value) && r.value in filters
    ensures r.Err? ==> r.error == NoLotSizeFilter || r.error == MissingKey("filterType")
  {
    if filters == [] then Err(NoLotSizeFilter)
    else if "filterType" !in filters[0] then Err(MissingKey("filterType"))
    else if filters[0]["filterType"] == "LOT_SIZE" then Ok(filters[0])
    else FirstLotSize(filters[1..])
  }

  /** The lookup on the exchange's answer for a symbol. */
  function LotSizeFilter(info: Option<SymbolInfo>): (r: Result<Filter, Error>)
    ensures info.None? ==> r == Err(InvalidSymbol)
    ensures info.Some? && info.value.filters.None? ==> r == Err(MissingKey("filters"))
    ensures r.Ok? ==> info.Some? && info.value.filters.Some?
                      && IsLotSize(r.value) && r.value in info.value.filters.value
    ensures r.Err? && info.Some? && info.value.filters.Some?
            ==> r.error == NoLotSizeFilter || r.error == MissingKey("filterType")
  {
    match info
    case None => Err(InvalidSymbol)
    case Some(SymbolInfo(filters)) =>
      match filters
      case None => Err(MissingKey("filters"))
      case Some(fs) => FirstLotSize(fs)
  }

  /** A LOT_SIZE filter at index `i` with every filter before it passed over is
      the one the lookup returns; and past a passed-over prefix the lookup gives
      the same result as a scan started at `i`. */
  lemma {:induction false} FirstLotSizeIsFirstMatch(filters: seq<Filter>, i: nat)
    requires i < |filters|
    ensures FirstLotSize(filters) == Ok(filters[i]) && IsLotSize(filters[i])
            <== PassedOver(filters, i) && IsLotSize(filters[i])
    ensures PassedOver(filters, i) ==> FirstLotSize(filters) == FirstLotSize(filters[i..])
  {
    if i > 0 && PassedOver(filters, i) {
      assert PassedOver(filters[1..], i - 1) by {
        forall j | 0 <= j < i - 1
          ensures "filterType" in filters[1..][j] && !IsLotSize(filters[1..][j])
        {
          assert filters[1..][j] == filters[j + 1];
        }
      }
      assert !IsLotSize(filters[0]) && "filterType" in filters[0];
      FirstLotSizeIsFirstMatch(filters[1..], i - 1);
      assert filters[1..][i - 1..] == filters[i..];
    }
  }

  /** The lookup reports no LOT_SIZE filter exactly when it passed over every filter. */
  lemma {:induction false} NoLotSizeIffAllPassed(filters: seq<Filter>)
    ensures FirstLotSize(filters) == Err(NoLotSizeFilter) <==> PassedOver(filters, |filters|)
  {
    if filters != [] {
      NoLotSizeIffAllPassed(filters[1..]);
      if "filterType" in filters[0] && !IsLotSize(filters[0]) {
        assert PassedOver(filters, |filters|) <==> PassedOver(filters[1..], |filters| - 1) by {
          if PassedOver(filters[1..], |filters| - 1) {
            forall j | 0 <= j < |filters|
              ensures "filterType" in filters[j] && !IsLotSize(filters[j])
            {
              if j > 0 {
                assert filters[j] == filters[1..][j - 1];
              }
            }
          }
        }
      }
    }
  }

  /** `_get_lot_size_filter`: a scan of the filters with an early return. */
  method GetLotSizeFilter(info: Option<SymbolInfo>) returns (r: Result<Filter, Error>)
    ensures r == LotSizeFilter(info)
  {
    if info.None? {
      return Err(InvalidSymbol);
    }
    if info.value.filters.None? {
      return Err(MissingKey("filters"));
    }
    var filters := info.value.filters.value;
    var i := 0;
    while i < |filters|
      invariant i <= |filters|
      invariant FirstLotSize(filters[i..]) == FirstLotSize(filters)
    {
      var f := filters[i];
      assert filters[i..][1..] == filters[i + 1..];
      if "filterType" !in f {
        return Err(MissingKey("filterType"));
      }
      if f["filterType"] == "LOT_SIZE" {
        return Ok(f);
      }
      i := i + 1;
    }
    return Err(NoLotSizeFilter);
  }

  // ---------------------------------------------------------------------------
  // Quantity normaliser

  /** The two numbers the normaliser reads from a LOT_SIZE filter, and the text
      of the step, from which it counts decimal places. */
  datatype LotRule = LotRule(minQty: real, stepSize: real, stepText: string)

  /** A rule read from a filter: the step is the value of its own text. */
  predicate WellFormed(rule: LotRule) {
    ParseNumber(rule.stepText) == Some(rule.stepSize)
  }

  /** `float(lot[key])`: a missing key and unreadable text are errors. */
  function NumberField(lot: Filter, key: string): (r: Result<real, Error>)
    ensures r.Ok? <==> key in lot && ParseNumber(lot[key]).Some?
    ensures r.Ok? ==> r.value == ParseNumber(lot[key]).value
  {
    if key !in lot then Err(MissingKey(key))
    else match ParseNumber(lot[key])
      case None => Err(InvalidNumber(lot[key]))
      case Some(v) => Ok(v)
  }

  /** The rule of a LOT_SIZE filter; "minQty" is read before "stepSize". */
  function LotRuleOf(lot: Filter): (r: Result<LotRule, Error>)
    ensures r.Ok? <==> NumberField(lot, "minQty").Ok? && NumberField(lot, "stepSize").Ok?
    ensures r.Ok? ==> r.value.minQty == NumberField(lot, "minQty").value
    ensures r.Ok? ==> "stepSize" in lot && WellFormed(r.value) && r.value.stepText == lot["stepSize"]
    ensures NumberField(lot, "minQty").Err? ==> r == Err(NumberField(lot, "minQty").error)
    ensures NumberField(lot, "minQty").Ok? && NumberField(lot, "stepSize").Err?
            ==> r == Err(NumberField(lot, "stepSize").error)
    ensures "minQty" !in lot ==> r == Err(MissingKey("minQty"))
  {
    var minQty :- NumberField(lot, "minQty");
    var stepSize :- NumberField(lot, "stepSize");
    Ok(LotRule(minQty, stepSize, lot["stepSize"]))
  }

  /** Python's `max(quantity, minQty)`. */
  function Clamp(quantity: real, minQty: real): (q: real)
    ensures q >= quantity && q >= minQty
    ensures q == quantity || q == minQty
  {
    if minQty > quantity then minQty else quantity
  }

  /** True when `x` is a whole number of steps. */
  predicate IsMultiple(x: real, step: real)
    requires step > 0.0
  {
    IsInteger(x / step)
  }

  /** `q // step` for `math.floor(qty / step_size)`. */
  function FloorSteps(qty: real, step: real): int
    requires step > 0.0
  {
    (qty / step).Floor
  }

  lemma StrictScale(x: real, y: real, p: real)
    requires x < y && p > 0.0
    ensures x * p < y * p
  {
  }

  lemma QuotientTimesStep(q: real, step: real)
    requires step > 0.0
    ensures (q / step) * step == q
  {
  }

  lemma NextStep(r: real, step: real)
    ensures (r + 1.0) * step == r * step + step
  {
  }

  lemma StepAbove(q: real, step: real, y: real, r: real)
    requires step > 0.0 && y * step == q && y < r + 1.0
    ensures q < r * step + step
  {
    StrictScale(y, r + 1.0, step);
    NextStep(r, step);
  }

  lemma BetweenSteps(q: real, step: real, y: real, r: real)
    requires step > 0.0 && y * step == q && r <= y < r + 1.0
    ensures r * step <= q < r * step + step
  {
    ScaleMonotone(r, y, step);
    StepAbove(q, step, y, r);
  }

  lemma FloorScaled(q: real, step: real, k: int)
    requires step > 0.0 && k as real <= q / step < k as real + 1.0
    ensures k as real * step <= q < k as real * step + step
  {
    QuotientTimesStep(q, step);
    BetweenSteps(q, step, q / step, k as real);
  }

  lemma MultipleOfSteps(k: int, step: real)
    requires step > 0.0
    ensures (k as real * step) / step == k as real
  {
  }

  /** `math.floor(qty / step) * step`: the largest whole number of steps not above `qty`. */
  function Quantize(qty: real, step: real): (r: real)
    requires step > 0.0
    ensures r <= qty < r + step
    ensures IsMultiple(r, step)
  {
    var k := FloorSteps(qty, step);
    FloorScaled(qty, step, k);
    MultipleOfSteps(k, step);
    k as real * step
  }

  /** `adjust_quantity_to_lot` after the lookup: clamp, floor to the step when
      the step is positive, then `float(f"{qty:.{decimals}f}")`. */
  function Normalize(rule: LotRule, quantity: real): (r: real)
    ensures HasPlaces(r, FractionDigitCount(rule.stepText))
  {
    var clamped := Clamp(quantity, rule.minQty);
    var stepped := if rule.stepSize > 0.0 then Quantize(clamped, rule.stepSize) else clamped;
    var places := FractionDigitCount(rule.stepText);
    RenderHasPlaces(stepped, places);
    Reformat(stepped, places)
  }

  /** `adjust_quantity_to_lot(symbol, quantity)`, with the exchange's symbol
      information for `symbol` as `info`. */
  function AdjustQuantityToLot(info: Option<SymbolInfo>, quantity: real): (r: Result<real, Error>)
    ensures r.Ok? ==> LotSizeFilter(info).Ok? && LotRuleOf(LotSizeFilter(info).value).Ok?
    ensures r.Ok? ==> r.value == Normalize(LotRuleOf(LotSizeFilter(info).value).value, quantity)
    ensures LotSizeFilter(info).Err? ==> r == Err(LotSizeFilter(info).error)
    ensures LotSizeFilter(info).Ok? ==> (r.Ok? <==> LotRuleOf(LotSizeFilter(info).value).Ok?)
    ensures LotSizeFilter(info).Ok? && LotRuleOf(LotSizeFilter(info).value).Err?
            ==> r == Err(LotRuleOf(LotSizeFilter(info).value).error)
  {
    var lot :- LotSizeFilter(info);
    var rule :- LotRuleOf(lot);
    Ok(Normalize(rule, quantity))
  }

  // ---------------------------------------------------------------------------
  // Non-zero balances

  /** A balance entry as the exchange sends it; each field may be missing. */
  datatype RawBalance = RawBalance(asset: Option<string>, free: Option<string>, locked: Option<string>)

  /** A balance as the dashboard keeps it. */
  datatype Balance = Balance(asset: Option<string>, free: real, locked: real)

  /** `float(b.get(key, 0))`: a missing field counts as 0. */
  function AmountOrZero(field: Option<string>): (r: Result<real, Error>)
    ensures field.None? ==> r == Ok(0.0)
    ensures field.Some? ==> (r.Ok? <==> ParseNumber(field.value).Some?)
    ensures field.Some? && r.Ok? ==> r.value == ParseNumber(field.value).value
    ensures field.Some? && r.Err? ==> r == Err(InvalidNumber(field.value))
  {
    match field
    case None => Ok(0.0)
    case Some(text) =>
      match ParseNumber(text)
      case None => Err(InvalidNumber(text))
      case Some(v) => Ok(v)
  }

  /** One entry read as the loop reads it: "free" first, then "locked". */
  function ParseBalance(b: RawBalance): Result<Balance, Error> {
    var free :- AmountOrZero(b.free);
    var locked :- AmountOrZero(b.locked);
    Ok(Balance(b.asset, free, locked))
  }

  /** An entry can be read exactly when each field present is a number; a
      missing field counts as zero, and the asset is carried over unchanged.
      An unreadable "free" is reported before an unreadable "locked". */
  lemma ParseBalanceReads(b: RawBalance)
    ensures ParseBalance(b).Ok? <==> AmountOrZero(b.free).Ok? && AmountOrZero(b.locked).Ok?
    ensures ParseBalance(b).Ok? ==>
              ParseBalance(b).value == Balance(b.asset, AmountOrZero(b.free).value, AmountOrZero(b.locked).value)
    ensures AmountOrZero(b.free).Err? ==> ParseBalance(b) == Err(AmountOrZero(b.free).error)
    ensures AmountOrZero(b.free).Ok? && AmountOrZero(b.locked).Err?
            ==> ParseBalance(b) == Err(AmountOrZero(b.locked).error)
  {
  }

  predicate IsNonZero(b: Balance) {
    b.free > 0.0 || b.locked > 0.0
  }

  /** The loop's result on the entries `bs`: the first entry that cannot be
      read stops it; otherwise the read entries that are non-zero, in order. */
  function NonZeroBalances(bs: seq<RawBalance>): (r: Result<seq<Balance>, Error>)
    ensures r.Ok? ==> |r.value| <= |bs|
    ensures r.Ok? ==> forall k :: 0 <= k < |r.value| ==> IsNonZero(r.value[k])
  {
    if bs == [] then Ok([])
    else
      var kept :- NonZeroBalances(bs[..|bs| - 1]);
      var b :- ParseBalance(bs[|bs| - 1]);
      Ok(if IsNonZero(b) then kept + [b] else kept)
  }

  /** Once a prefix of the entries fails, the whole list fails the same way. */
  lemma {:induction false} NonZeroBalancesPrefixFails(bs: seq<RawBalance>, i: nat)
    requires i <= |bs| && NonZeroBalances(bs[..i]).Err?
    ensures NonZeroBalances(bs) == NonZeroBalances(bs[..i])
    decreases |bs| - i
  {
    if i < |bs| {
      var longer := bs[..i + 1];
      assert longer[..|longer| - 1] == bs[..i];
      NonZeroBalancesPrefixFails(bs, i + 1);
    } else {
      assert bs[..i] == bs;
    }
  }

  /** `get_non_zero_balances` after `client.get_account()`: `balances` is the
      account's "balances" entry, `None` when the key is missing. */
  method GetNonZeroBalances(balances: Option<seq<RawBalance>>) returns (r: Result<seq<Balance>, Error>)
    ensures r == NonZeroBalances(balances.GetOr([]))
  {
    var bs := balances.GetOr([]);
    var nonZero: seq<Balance> := [];
    var i := 0;
    while i < |bs|
      invariant i <= |bs|
      invariant NonZeroBalances(bs[..i]) == Ok(nonZero)
    {
      assert bs[..i + 1][..i] == bs[..i];
      var parsed := ParseBalance(bs[i]);
      if parsed.Err? {
        NonZeroBalancesPrefixFails(bs, i + 1);
        return Err(parsed.error);
      }
      var b := parsed.value;
      if b.free > 0.0 || b.locked > 0.0 {
        nonZero := nonZero + [b];
      }
      i := i + 1;
    }
    assert bs[..i] == bs;
    return Ok(nonZero);
  }

  /** The result on two lists joined is the results joined: the kept
      entries stay in their original order. */
  lemma {:induction false} NonZeroBalancesAppend(a: seq<RawBalance>, b: seq<RawBalance>)
    requires NonZeroBalances(a).Ok? && NonZeroBalances(b).Ok?
    ensures NonZeroBalances(a + b) == Ok(NonZeroBalances(a).value + NonZeroBalances(b).value)
    decreases |b|
  {
    if b == [] {
      assert a + b == a;
      assert NonZeroBalances(a).value + [] == NonZeroBalances(a).value;
    } else {
      var front, x := b[..|b| - 1], b[|b| - 1];
      assert (a + b)[..|a + b| - 1] == a + front;
      assert (a + b)[|a + b| - 1] == x;
      assert NonZeroBalances(front).Ok? && ParseBalance(x).Ok?;
      NonZeroBalancesAppend(a, front);
      var p := ParseBalance(x).value;
      var tail := if IsNonZero(p) then [p] else [];
      assert NonZeroBalances(b).value == NonZeroBalances(front).value + tail;
      assert NonZeroBalances(a + b).value == NonZeroBalances(a + front).value + tail;
      assert NonZeroBalances(a).value + NonZeroBalances(front).value + tail
          == NonZeroBalances(a).value + (NonZeroBalances(front).value + tail);
    }
  }

  lemma NonZeroBalancesLast(bs: seq<RawBalance>)
    requires bs != []
    ensures NonZeroBalances(bs).Ok?
            <==> NonZeroBalances(bs[..|bs| - 1]).Ok? && ParseBalance(bs[|bs| - 1]).Ok?
  {
  }

  /** A property holds of every element exactly when it holds of every element
      but the last, and of the last. */
  lemma EveryLast<T>(s: seq<T>, p: T -> bool)
    requires s != []
    ensures var front := s[..|s| - 1];
            (forall i :: 0 <= i < |s| ==> p(s[i]))
            <==> (forall i :: 0 <= i < |front| ==> p(front[i])) && p(s[|s| - 1])
  {
    var front := s[..|s| - 1];
    assert forall i :: 0 <= i < |front| ==> front[i] == s[i];
  }

  /** A list succeeds exactly when every entry can be read. */
  lemma {:induction false} NonZeroBalancesOk(bs: seq<RawBalance>)
    ensures NonZeroBalances(bs).Ok? <==> forall i :: 0 <= i < |bs| ==> ParseBalance(bs[i]).Ok?
  {
    if bs != [] {
      NonZeroBalancesOk(bs[..|bs| - 1]);
      NonZeroBalancesLast(bs);
      EveryLast(bs, b => ParseBalance(b).Ok?);
    }
  }

  /** Some entry of `bs` reads as `x`. */
  predicate Reads(bs: seq<RawBalance>, x: Balance) {
    exists i :: 0 <= i < |bs| && ParseBalance(bs[i]) == Ok(x)
  }

  /** A property holds of some element exactly when it holds of some element
      but the last, or of the last. */
  lemma SomeLast<T>(s: seq<T>, p: T -> bool)
    requires s != []
    ensures var front := s[..|s| - 1];
            (exists i :: 0 <= i < |s| && p(s[i]))
            <==> (exists i :: 0 <= i < |front| && p(front[i])) || p(s[|s| - 1])
  {
    var front := s[..|s| - 1];
    assert forall i :: 0 <= i < |front| ==> front[i] == s[i];
  }

  lemma ReadsLast(bs: seq<RawBalance>, x: Balance)
    requires bs != []
    ensures Reads(bs, x) <==> Reads(bs[..|bs| - 1], x) || ParseBalance(bs[|bs| - 1]) == Ok(x)
  {
    SomeLast(bs, b => ParseBalance(b) == Ok(x));
  }

  /** On success the result holds exactly the read entries that are non-zero. */
  lemma {:induction false} NonZeroBalancesExact(bs: seq<RawBalance>, x: Balance)
    requires NonZeroBalances(bs).Ok?
    ensures x in NonZeroBalances(bs).value <==> IsNonZero(x) && Reads(bs, x)
  {
    if bs != [] {
      var front := bs[..|bs| - 1];
      assert NonZeroBalances(front).Ok?;
      NonZeroBalancesExact(front, x);
      ReadsLast(bs, x);
      var last := ParseBalance(bs[|bs| - 1]).value;
      var tail := if IsNonZero(last) then [last] else [];
      assert NonZeroBalances(bs).value == NonZeroBalances(front).value + tail;
    }
  }

  /** A readable prefix followed by an unreadable entry fails with that
      entry's error. */
  lemma NonZeroBalancesFailsLast(bs: seq<RawBalance>)
    requires bs != [] && NonZeroBalances(bs[..|bs| - 1]).Ok?
    requires ParseBalance(bs[|bs| - 1]).Err?
    ensures NonZeroBalances(bs) == Err(ParseBalance(bs[|bs| - 1]).error)
  {
  }

  /** The first entry that cannot be read decides the error. */
  lemma NonZeroBalancesFailsAt(bs: seq<RawBalance>, i: nat)
    requires i < |bs| && ParseBalance(bs[i]).Err?
    requires forall j :: 0 <= j < i ==> ParseBalance(bs[j]).Ok?
    ensures NonZeroBalances(bs) == Err(ParseBalance(bs[i]).error)
  {
    var upto := bs[..i + 1];
    assert NonZeroBalances(upto[..|upto| - 1]).Ok? by {
      var front := bs[..i];
      assert upto[..|upto| - 1] == front;
      assert forall j :: 0 <= j < |front| ==> ParseBalance(front[j]).Ok? by {
        assert forall j :: 0 <= j < |front| ==> front[j] == bs[j];
      }
      NonZeroBalancesOk(front);
    }
    assert upto[|upto| - 1] == bs[i];
    NonZeroBalancesFailsLast(upto);
    NonZeroBalancesPrefixFails(bs, i + 1);
  }

  // ---------------------------------------------------------------------------
  // Market order checks

  datatype Side = Buy | Sell

  /** `str.upper()` on one character: ASCII letters, and the two non-ASCII
      letters whose upper case is an ASCII letter ('ı' to 'I', 'ſ' to 'S'). */
  function UpperChar(c: char): char {
    if 'a' <= c <= 'z' then (c as int - 32) as char
    else if c == 'ı' then 'I'
    else if c == 'ſ' then 'S'
    else c
  }

  function Upper(s: string): (u: string)
    ensures |u| == |s| && forall i :: 0 <= i < |s| ==> u[i] == UpperChar(s[i])
  {
    if s == [] then [] else [UpperChar(s[0])] + Upper(s[1..])
  }

  /** `side.upper()` checked against ("BUY", "SELL"). */
  function ParseSide(side: string): (r: Result<Side, Error>)
    ensures r == Ok(Buy) <==> Upper(side) == "BUY"
    ensures r == Ok(Sell) <==> Upper(side) == "SELL"
    ensures r.Err? ==> r == Err(InvalidSide)
  {
    var upper := Upper(side);
    if upper == "BUY" then Ok(Buy)
    else if upper == "SELL" then Ok(Sell)
    else Err(InvalidSide)
  }

  /** The side is read without regard to case, and only as BUY or SELL. */
  lemma ParseSideCaseInsensitive(side: string)
    ensures ParseSide(side) == Ok(Buy)
            <==> |side| == 3 && side[0] in "Bb" && side[1] in "Uu" && side[2] in "Yy"
    ensures ParseSide(side) == Ok(Sell)
            <==> |side| == 4 && side[0] in "Ssſ" && side[1] in "Ee" && side[2] in "Ll" && side[3] in "Ll"
    ensures ParseSide(side).Err? <==> ParseSide(side) == Err(InvalidSide)
  {
    var upper := Upper(side);
    if |side| == 3 {
      assert upper == "BUY" <==> upper[0] == 'B' && upper[1] == 'U' && upper[2] == 'Y';
    }
    if |side| == 4 {
      assert upper == "SELL" <==> upper[0] == 'S' && upper[1] == 'E' && upper[2] == 'L' && upper[3] == 'L';
    }
  }

  /** What the order would send: the upper-cased symbol, the side and the
      adjusted quantity. */
  datatype OrderRequest = OrderRequest(symbol: string, side: Side, quantity: real)

  /** `place_market_order` up to the request it sends. */
  function PlaceMarketOrder(info: Option<SymbolInfo>, symbol: string, side: string, quantity: real)
    : (r: Result<OrderRequest, Error>)
    ensures ParseSide(side).Err? ==> r == Err(InvalidSide)
    ensures ParseSide(side).Ok? && quantity <= 0.0 ==> r == Err(InvalidQuantity)
    ensures r.Ok? <==> ParseSide(side).Ok? && quantity > 0.0 && AdjustQuantityToLot(info, quantity).Ok?
    ensures ParseSide(side).Ok? && quantity > 0.0 && AdjustQuantityToLot(info, quantity).Err?
            ==> r == Err(AdjustQuantityToLot(info, quantity).error)
    ensures r.Ok? ==> r.value.side == ParseSide(side).value
    ensures r.Ok? ==> AdjustQuantityToLot(info, quantity).Ok?
                      && r.value.quantity == AdjustQuantityToLot(info, quantity).value
                      && r.value.symbol == Upper(symbol)
  {
    var s :- ParseSide(side);
    if quantity <= 0.0 then Err(InvalidQuantity)
    else
      var adjusted :- AdjustQuantityToLot(info, quantity);
      Ok(OrderRequest(Upper(symbol), s, adjusted))
  }
}
