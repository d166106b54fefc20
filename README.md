# Binance Spot Testnet client: lot-size normalisation, balances and order checks

This project models the sequential logic of `services/binance_client.py`, the
service layer of a small Flask dashboard that talks to the Binance Spot Testnet.
Four pieces are covered:

- `_get_lot_size_filter`: find the first `LOT_SIZE` filter in the exchange's
  symbol information.
- `adjust_quantity_to_lot`: normalise a quantity to that filter. The steps are:
  - raise it to `minQty`;
  - floor it to a whole number of `stepSize` steps;
  - count the step's decimals as `len(step_str.rstrip("0").split(".")[1])`;
  - re-read the quantity through `float(f"{qty:.{decimals}f}")`.
- `get_non_zero_balances`: keep the account balances whose `free` or `locked`
  amount is positive.
- `place_market_order`: the checks made before the order is sent. The side is
  upper-cased and must be BUY or SELL, the quantity must be positive, and the
  quantity is normalised.

Numbers are exact reals (`real`), not IEEE doubles. The answers of the exchange
are parameters:

- the symbol information (`Option<SymbolInfo>`, where `None` is a falsy answer);
- the account's `balances` entry.

The project has four modules:

- `Results`: the `Option` and `Result` wrappers.
- `DecimalText`: the Python text handling the normaliser relies on, namely
  `float()` on plain decimal numerals, `rstrip("0")`, `split(".")` and
  fixed-precision formatting with round-half-even.
- `BinanceClient`: the operations of the service.
- `LotSizeProperties`: what the normaliser guarantees.

The lookup and the balance loop are imperative in the source. They are modelled
as methods with loops (`GetLotSizeFilter`, `GetNonZeroBalances`), each proved
equal to a recursive specification function. The lemmas are stated about that
function.

The docstring of `adjust_quantity_to_lot` (services/binance_client.py:112-116)
says the result respects both `minQty` and `stepSize`. The code does not always
do so, and the model follows the code:

- **The minimum can be missed.** The result is at least `minQty` only when
  `minQty` is itself a whole number of steps (`MinRespectedWhenAligned`).
  Otherwise the floor can go below it: with minimum 0.15 and step "0.1", a
  request for 0.15 gives 0.1 (`MinMissedWhenUnaligned`).
- **Where the quantity check sits.** `adjust_quantity_to_lot` has no quantity
  check of its own. It accepts zero and negative quantities, since the clamp
  lifts them to `minQty`. Only
  `place_market_order` rejects `quantity <= 0`, and it does so after the side
  check and before the normalisation.

## Model

| member | source | states |
|---|---|---|
| BinanceClient.FirstLotSize | services/binance_client.py:104-108 | a found filter is a LOT_SIZE filter of the list; a failure is "no LOT_SIZE filter" or a filter without "filterType" |
| BinanceClient.LotSizeFilter | services/binance_client.py:100-108 | a falsy answer is the invalid-symbol error; a missing "filters" key is reported; a found filter is a LOT_SIZE filter of the symbol's list; any other failure is "no LOT_SIZE filter" or a filter without "filterType" |
| BinanceClient.FirstLotSizeIsFirstMatch | services/binance_client.py:104-106 | when every earlier filter has a non-LOT_SIZE "filterType" and filter i is LOT_SIZE, the lookup returns filter i; the scan may resume from any passed-over position |
| BinanceClient.NoLotSizeIffAllPassed | services/binance_client.py:104-108 | "no LOT_SIZE filter" is reported exactly when every filter was passed over |
| BinanceClient.GetLotSizeFilter | services/binance_client.py:95-108 | the loop with early return gives the lookup's result: an invalid symbol for a falsy answer, a missing "filters" key, the first LOT_SIZE filter, or the error of the first filter that stops the scan |
| BinanceClient.NumberField | services/binance_client.py:119-120 | `float(lot[key])` succeeds exactly when the key is present and its text is a number, and then gives that number |
| BinanceClient.LotRuleOf | services/binance_client.py:119-121 | a rule is read exactly when both "minQty" and "stepSize" read as numbers; its minimum is the number read from "minQty"; it keeps the step's own text, and that text parses to the step; an unreadable "minQty" is reported first, then an unreadable "stepSize" |
| BinanceClient.Clamp | services/binance_client.py:124 | `max(quantity, minQty)` is at least both and equals one of them |
| BinanceClient.Quantize | services/binance_client.py:127-129 | `floor(qty / step) * step` is a whole number of steps, at most `qty` and less than one step below it |
| BinanceClient.Normalize | services/binance_client.py:124-137 | the normalised quantity has at most as many decimal places as the step text counts (its properties are in the LotSizeProperties rows) |
| BinanceClient.AdjustQuantityToLot | services/binance_client.py:111-138 | a lookup error is propagated unchanged; after a found filter, the adjustment succeeds exactly when the filter's rule reads, a rule error is propagated unchanged, and on success the result is the normalised quantity under that rule |
| BinanceClient.AmountOrZero | services/binance_client.py:40-41 | a missing amount reads as 0; a present one reads exactly when its text is a number, and then as that number; otherwise the error names the text |
| BinanceClient.ParseBalanceReads | services/binance_client.py:40-48 | the properties of `ParseBalance`: an entry reads exactly when both amounts read; the result keeps the asset and both amounts; an unreadable "free" is reported first, and an unreadable "locked" after a readable "free" |
| BinanceClient.NonZeroBalances | services/binance_client.py:38-50 | the kept balances are no more than the entries and each has a positive free or locked amount (the lemmas below give the rest) |
| BinanceClient.GetNonZeroBalances | services/binance_client.py:36-50 | the loop's result equals the specification on the "balances" entry, which is empty when the key is missing |
| BinanceClient.NonZeroBalancesPrefixFails | services/binance_client.py:39-41 | once an entry cannot be read, later entries do not change the error |
| BinanceClient.NonZeroBalancesAppend | services/binance_client.py:38-50 | on two lists joined, the result is the two results joined, so the kept entries stay in their original order |
| BinanceClient.NonZeroBalancesOk | services/binance_client.py:39-41 | the loop succeeds exactly when every entry can be read |
| BinanceClient.NonZeroBalancesExact | services/binance_client.py:42-49 | on success, a balance is in the result exactly when some entry reads as it and it has a positive free or locked amount |
| BinanceClient.NonZeroBalancesFailsAt | services/binance_client.py:39-41 | the first unreadable entry decides the error |
| BinanceClient.Upper | services/binance_client.py:150 | upper-casing keeps the length and maps each character on its own |
| BinanceClient.ParseSide | services/binance_client.py:150-152 | the side is BUY exactly when it upper-cases to "BUY", SELL exactly when it upper-cases to "SELL", and otherwise the invalid-side error |
| BinanceClient.ParseSideCaseInsensitive | services/binance_client.py:150-152 | the side is accepted as BUY exactly for the 3-letter spellings of "buy" in any case, and as SELL exactly for "sell" in any case ('ſ' included); anything else is the invalid-side error |
| BinanceClient.PlaceMarketOrder | services/binance_client.py:148-165 | an invalid side is rejected first; then a non-positive quantity; the order goes through exactly when the side is valid, the quantity is positive and the normalisation succeeds, and a normalisation error is propagated unchanged; the request carries the parsed side, the normalised quantity and the upper-cased symbol |
| DecimalText.FractionDigitCount | services/binance_client.py:131-135 | a text without '.' counts no decimals; otherwise the count is at most the number of characters after the first '.' |
| DecimalText.FractionDigitCountAfterPoint | services/binance_client.py:132-133 | for a text with one '.', the count is the number of characters after the '.' once trailing '0's are stripped |
| DecimalText.FractionDigitCountOfStep | services/binance_client.py:132-133 | "0.00100000" counts 3 decimals |
| DecimalText.FractionDigitCountOfWhole | services/binance_client.py:132-135 | "1.00000000" and "1" count none |
| DecimalText.FractionDigitCountOfZero | services/binance_client.py:132-133 | "0.00000000" counts none |
| DecimalText.ParsePointFraction | services/binance_client.py:119-120 | `float("0." + digits)` reads the digits' integer value divided by 10 to the number of digits |
| DecimalText.StepHasPlaces | services/binance_client.py:120-135 | the value `float()` reads from a text times 10^decimals is a whole number, so the counted decimals are enough to write the step exactly |
| DecimalText.ZeroStepHasNoPlaces | services/binance_client.py:132-135 | a step whose value is zero counts no decimals |
| DecimalText.RStripZeros | services/binance_client.py:133 | `rstrip("0")` gives a prefix, everything removed is '0', and what remains does not end in '0' |
| DecimalText.RStripZerosUnique | services/binance_client.py:133 | those three properties determine the result of `rstrip("0")` |
| DecimalText.Split | services/binance_client.py:133 | `split(".")` gives at least one part, at least two exactly when the text holds a '.', and no part holds a '.' |
| DecimalText.JoinSplit | services/binance_client.py:133 | joining the parts of `split` with the separator gives back the text |
| DecimalText.RoundHalfEven | services/binance_client.py:137 | the rounded integer is within one half of the value, and a tie goes to the even integer |
| DecimalText.RenderExact | services/binance_client.py:137 | under `Render`, the value behind `f"{x:.{d}f}"`, a value with at most `decimals` decimal places renders unchanged |
| DecimalText.RenderMonotone | services/binance_client.py:137 | rendering keeps the order of values |
| DecimalText.RenderHasPlaces | services/binance_client.py:137 | a rendered value has at most `decimals` decimal places |
| DecimalText.FormatFixedRoundTrip | services/binance_client.py:137 | `float()` of the text `FormatFixed` writes for `f"{x:.{d}f}"` reads back exactly `x` rounded half-even to d decimals |
| DecimalText.Reformat | services/binance_client.py:137 | the re-read quantity is the rounded rendering |
| LotSizeProperties.QuantizeUnique | services/binance_client.py:127-129 | the floored quantity is the only whole number of steps at most `qty` and less than one step below it |
| LotSizeProperties.QuantizeMonotone | services/binance_client.py:127-129 | flooring to the step keeps the order of quantities |
| LotSizeProperties.RenderIsLossless | services/binance_client.py:127-137 | with a positive step, the re-rendering at the counted decimals changes nothing: the result is the clamped quantity floored to the step |
| LotSizeProperties.NormalizeFloorsToStep | services/binance_client.py:124-137 | with a positive step, the result is a whole number of steps, at most the clamped quantity and less than one step below it |
| LotSizeProperties.NormalizeUnstepped | services/binance_client.py:124-137 | without a positive step, the clamped quantity is only rounded to the counted decimals |
| LotSizeProperties.NormalizeZeroStep | services/binance_client.py:127-137 | a zero step gives the clamped quantity rounded to a whole number, with ties to even |
| LotSizeProperties.MinRespectedWhenAligned | services/binance_client.py:124-129 | when minQty is a whole number of steps, the result is at least minQty |
| LotSizeProperties.MinMissedWhenUnaligned | services/binance_client.py:124-129 | with minimum 0.15 and step "0.1", a request for 0.15 gives 0.1, below the minimum |
| LotSizeProperties.NormalizeIdempotent | services/binance_client.py:124-137 | normalising a normalised quantity again changes nothing |
| LotSizeProperties.AdjustIdempotent | services/binance_client.py:111-138 | adjusting an adjusted quantity with the same symbol information returns it unchanged |
| LotSizeProperties.FloorsToFiveDecimals | services/binance_client.py:111-138 | with minQty "0.0001" and stepSize "0.00001", 0.0015678 becomes 0.00156 |
| LotSizeProperties.ClampsToMinimum | services/binance_client.py:111-138 | with minQty "0.01" and stepSize "0.01", 0.001 becomes 0.01 |

## Left out

- `get_client` and the API keys from the environment are not modelled. They run first in `place_market_order`, before the side check, so a configuration error would come before every error modelled here.
- The network calls are not modelled: `get_account`, `get_symbol_info` and `create_order`. The symbol information and the balances are parameters. `PlaceMarketOrder` stops at the request it would send, and the re-raised API exceptions are not modelled.
- `get_klines_dataframe` (pandas conversion of candles) is left out. So are `services/indicators.py` and the Flask routes in `app.py`.
- Floating point is not modelled. All quantities are exact reals, so the IEEE drift in `qty / step_size`, in `steps * step_size` and in the binary value behind `f"{qty:.{d}f}"` is absent. `str(adj_quantity)` in the request is the same real.
- `DecimalText.Lex` reads only plain decimal numerals: an optional sign, digits and an optional '.'. Text with an exponent, whitespace, underscores, "inf" or "nan", or digits outside ASCII (which Python accepts, such as Arabic-Indic digits), is reported as an invalid number, where Python's `float()` would accept it.
- `BinanceClient.Upper` covers ASCII letters plus 'ı' and 'ſ'. Every other character is left unchanged, which suffices for the BUY/SELL check but not for general symbols.
- `DecimalText.FormatFixed` writes no sign for a value that rounds to zero. Python writes "-0.0" for a small negative value, but both read back as zero.
- Filters are modelled as dictionaries from text to text. A filter whose "minQty" or "stepSize" is not text (which the exchange does not send) is not modelled.
- A symbol-information answer that is an empty dictionary is falsy in Python. It is folded into `None` and gives the invalid-symbol error.
- Exception message texts are not modelled, only which error is raised.
- A NaN quantity is not modelled, since reals have no NaN.
