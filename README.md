# hftbattle SDK core in Dafny

This project models the numeric and decision core of the hftbattle trading
SDK and proves properties of the model:

- `Decimal`, the fixed-point price type. It is an `int64` numerator in units
  of 10^-7, with exact integer arithmetic, comparisons and a rounding
  division (`include/base/decimal.h`).
- `StringStreamBase`, the append-only text buffer with its number
  formatting (`include/base/string_stream.h`). The integer renderer writes
  3- and 2-digit chunks backwards into a scratch array, then zero-fills and
  optionally strips trailing zeros. `put_decimal` splits, rounds and
  prints a `Decimal` at the stream's precision.
- The `Dir`/`OrderStatus` enumerations with `opposite_dir` and `dir_sign`
  (`include/base/common_enums.h`).
- `SecurityOrdersSnapshot`, a strategy's own orders per side, and its
  aggregate queries (`include/security_orders_snapshot.h`).
- The four example strategies:
  - the deal-imbalance strategy;
  - the same strategy with a traded-volume cap;
  - stay-on-best-price;
  - stay-on-best-price with a volume gate.

Each strategy callback is a method. It is proved equal to a pure decision
function, and the strategy's promises are proved about that function as
lemmas.

Modules, one per file:

- `Ints` (ints.dfy): the int64 range and powers of ten.
- `Decimals` (decimal.dfy).
- `CommonEnums` (common_enums.dfy).
- `DigitText` (digit_text.dfy): the text of numbers.
- `DecimalFormat` (decimal_format.dfy): the rounding and text of
  `put_decimal`.
- `StringStreams` (string_stream.dfy).
- `OrdersSnapshot` (orders_snapshot.dfy).
- `StrategyActions` (strategy_actions.dfy): the simulator calls, the book
  and the deals as data.
- `DealsCountDiff`, `DealsCountDiffWithLimit`, `StayOnBestPrice` and
  `StayOnBestPriceImproved`: one file each.

Modelling choices:

- **Values and classes.**
  - `Decimal` is a value, so it is a `datatype`, and `+=`/`-=` return the
    updated value.
  - The stream and the strategies update fields in place, so they are
    classes. Their methods carry `modifies` clauses.
  - The scratch buffer of `put_integral_impl` is an `array<char>`.
- **Integer widths.** Integers are unbounded. In `Decimal` and in the
  stream, every place where the C++ int64 (or int32/uint32/uint64)
  arithmetic would overflow is excluded by a precondition that states the
  range (`InInt64`, `InRange`, `Negatable`). The strategies' `int` deal
  counters, the `Amount` sums of the snapshot queries and of the
  execution reports, and the `Microseconds` durations are unbounded; each
  is listed under "## Left out".
- **Simulator calls and inputs.**
  - Calls into the simulator (`add_limit_order`, `add_ioc_order`,
    `delete_order`) are returned as a sequence of `Action` values, in call
    order.
  - The server clock, the best prices and volumes, the deals and the
    execution reports' amounts are parameters.
  - JSON configuration values are `Option<int>` with the source's defaults.

## Model

| member | source | states |
|---|---|---|
| Decimals.FromInteger | include/base/decimal.h:40-42 | the numerator of `Decimal(n)` is an exact multiple of 10^7 whose quotient is n, and it is in int64 range |
| Decimals.LiteralDc | include/base/decimal.h:135-137 | the `_dc` literal of an unsigned integer is the same value as `Decimal(n)` |
| Decimals.Add | include/base/decimal.h:170-172 | the sum is in int64 range, and taking away either operand gives back the other |
| Decimals.Sub | include/base/decimal.h:174-176 | the difference is in int64 range, and adding the right operand back gives the left one |
| Decimals.AddAssign | include/base/decimal.h:122-125 | `+=` leaves the value of `lhs + rhs` |
| Decimals.SubAssign | include/base/decimal.h:117-120 | `-=` leaves the value of `lhs - rhs` |
| Decimals.AddInt | include/base/decimal.h:212-215 | adding an integer n moves the numerator by exactly n * 10^7 |
| Decimals.IntAdd | include/base/decimal.h:256-259 | integer + Decimal equals Decimal + integer |
| Decimals.SubInt | include/base/decimal.h:217-220 | subtracting an integer is undone by adding it back |
| Decimals.IntSub | include/base/decimal.h:261-264 | (n - d) + d is `Decimal(n)` |
| Decimals.Neg | include/base/decimal.h:139-141 | unary minus gives the in-range numerator that cancels the operand's |
| Decimals.AbsDecimal | include/base/decimal.h:127-129 | `abs` returns a non-negative Decimal with the same magnitude |
| Decimals.MulInt | include/base/decimal.h:270-273 | `Decimal * n` scales the numerator by n exactly, within int64; multiplying by 0 gives zero and by 1 gives the operand |
| Decimals.IntMul | include/base/decimal.h:294-297 | integer * Decimal equals Decimal * integer |
| Decimals.DivideNumerator | include/base/decimal.h:276-288 | the quotient's magnitude is the half-up-rounded quotient of the magnitudes; its sign is negative exactly when the signs of numerator and divisor differ |
| Decimals.DivInt | include/base/decimal.h:275-288 | `Decimal / n` is in int64 range; the quotient is within half a unit of the exact value, rounded away from zero on a tie; a nonzero result is negative exactly when the operands' signs differ |
| Decimals.Compare | include/base/decimal.h:146-168 | `==` and `!=` are equality of Decimals; `<`, `<=`, `>`, `>=` order the values by their numerators |
| Decimals.CompareInt | include/base/decimal.h:182-210 | comparing a Decimal with an integer compares the numerator with n * 10^7 |
| Decimals.IntCompare | include/base/decimal.h:226-254 | an integer on the left is the mirrored comparison with the integer on the right |
| Decimals.FractionDigitsFrom | include/base/decimal.h:68-76 | the loop count from a start: the first k at or after it whose multiple by 10^k is a whole number, at most 7 |
| Decimals.FractionDigits | include/base/decimal.h:68-76 | `decimal_digits` is the least k for which numerator * 10^k is divisible by 10^7 (the number of significant decimals), at most 7 |
| Decimals.DecimalDigits | include/base/decimal.h:68-76 | the `while` loop of `decimal_digits` returns exactly that least k |
| Decimals.NoOverflowBelow | include/base/decimal.h:71-73 | when the final multiplication of the loop fits int64, every earlier one does too |
| Decimals.AddSubCancel | include/base/decimal.h:170-176 | (a + b) - b == a |
| Decimals.AddCommutative | include/base/decimal.h:170-172 | a + b == b + a |
| Decimals.AddAssociative | include/base/decimal.h:170-172 | (a + b) + c == a + (b + c) |
| Decimals.FromIntegerAdditive | include/base/decimal.h:40-42 | `Decimal(m) + Decimal(n) == Decimal(m + n)` |
| Decimals.FromIntegerInjective | include/base/decimal.h:40-42 | `Decimal(m) == Decimal(n)` exactly when m == n |
| Decimals.NegInvolution | include/base/decimal.h:139-141 | unary minus negates the numerator and is its own inverse |
| Decimals.AbsIsMagnitude | include/base/decimal.h:127-129 | `abs` is the numerator's magnitude, ignores the sign and is idempotent |
| Decimals.MulIntExact | include/base/decimal.h:270-273 | multiplying `Decimal(a)` by k is `Decimal(a * k)` from either side |
| Decimals.DivideNumeratorBound | include/base/decimal.h:276-288 | the magnitude of the quotient is the rounded quotient of the magnitudes |
| Decimals.DivideNumeratorOdd | include/base/decimal.h:279-287 | the division is odd in the numerator and in the divisor |
| Decimals.DivideNumeratorExact | include/base/decimal.h:276-288 | an exact multiple divides without rounding |
| Decimals.DivideNumeratorHalfAway | include/base/decimal.h:283-287 | the quotient is within half a divisor of the exact value, and is rounded away from zero on a tie |
| Decimals.DivideNumeratorNearest | include/base/decimal.h:276-288 | no other integer quotient is closer to the exact value |
| Decimals.DivIntUndoesMulInt | include/base/decimal.h:270-288 | (d * k) / k == d |
| Decimals.DivIntRoundsHalfAwayFromZero | include/base/decimal.h:276-288 | `Decimal / integer` rounds to within half a unit, away from zero on a tie |
| Decimals.DivIntIsNearest | include/base/decimal.h:276-288 | `Decimal / integer` is the closest representable quotient |
| Decimals.DivIntOddSymmetry | include/base/decimal.h:279-287 | (-d) / k == -(d / k) == d / (-k) |
| Decimals.CompareTotalOrder | include/base/decimal.h:146-168 | the six comparisons form a total order consistent with equality |
| Decimals.CompareIntegers | include/base/decimal.h:182-210 | comparing `Decimal(m)` with n is comparing m with n |
| Decimals.Hash | include/base/decimal.h:307-313 | the hash is the int64 hash of the numerator, so it depends on the value alone |
| Decimals.HashRespectsEquality | include/base/decimal.h:307-313 | equal Decimals have equal hashes |
| Decimals.FractionDigitsExamples | include/base/decimal.h:68-76 | an integer has 0 significant decimals; 1.23 has 2 |
| CommonEnums.ToInt8 | include/base/common_enums.h:51-53 | the `int8_t` cast gives a value in [-128, 128) congruent to the byte modulo 256 |
| CommonEnums.OppositeDir | include/base/common_enums.h:46-48 | `opposite_dir(d)` is 1 - d modulo 256 |
| CommonEnums.DirSign | include/base/common_enums.h:50-53 | `dir_sign` is always odd |
| CommonEnums.OppositeDirSwapsSides | include/base/common_enums.h:13-19 | BID and ASK are each other's opposite |
| CommonEnums.OppositeDirInvolution | include/base/common_enums.h:46-48 | on BID/ASK, `opposite_dir` gives the other side and is its own inverse |
| CommonEnums.DirSignValues | include/base/common_enums.h:13-19 | BID/BUY have sign +1, ASK/SELL have sign -1, and the aliases coincide |
| CommonEnums.DirSignOpposite | include/base/common_enums.h:46-53 | the opposite side has the opposite sign |
| CommonEnums.UnknownIsNoSide | include/base/common_enums.h:13-53 | UNKNOWN is no side; its opposite is byte 254, which names no enumerator; its sign is -5 |
| DigitText.Digits | include/base/string_stream.h:264-284 | the digit text of a positive number is all digits without a leading zero; zero gives the empty text |
| DigitText.DigitsRoundTrip | include/base/string_stream.h:264-284 | reading back the digit text gives the number |
| DigitText.DigitsCanonical | include/base/string_stream.h:264-284 | a digit string without a leading zero is the text of its own value, so the text is unique |
| DigitText.DigitsLength | include/base/string_stream.h:264-284 | the text has at most k digits exactly when the number is below 10^k |
| DigitText.SplitChunk3 | include/base/string_stream.h:265-271 | the text is the text of u / 1000 followed by the 3-digit table entry of u mod 1000 |
| DigitText.SplitChunk2 | include/base/string_stream.h:273-279 | the text is the text of u / 100 followed by the 2-digit table entry of u mod 100 |
| DigitText.SignedTextShape | include/base/string_stream.h:264-290 | the signed text is "0" for zero, starts with '-' exactly for negatives, has no leading zero otherwise |
| DigitText.SignedTextRoundTrip | include/base/string_stream.h:264-290 | parsing the signed text gives the number back |
| DigitText.IntegralTextCanonical | include/base/string_stream.h:292-296 | a fill no wider than the text adds nothing |
| DigitText.IntegralTextPadded | include/base/string_stream.h:292-296 | zero-fill left-pads with '0' to max(fill, length), keeping the text at the end |
| DigitText.ValueOfLeadingZeros | include/base/string_stream.h:292-296 | leading zeros do not change the value |
| DigitText.PaddedValue | include/base/string_stream.h:292-296 | a non-negative value zero-filled to any width reads back as itself |
| DigitText.StripTrailingZerosShape | include/base/string_stream.h:298-305 | stripping removes only '0's at the end and leaves none there |
| DigitText.StripKeepsNonzero | include/base/string_stream.h:298-305 | stripping keeps everything up to the last non-'0' character |
| DigitText.ValueOfTrailingZeros | include/base/string_stream.h:298-305 | appending k zeros multiplies the value by 10^k |
| DigitText.StrippedValue | include/base/string_stream.h:292-305 | the stripped text of a nonzero value is non-empty, ends in a nonzero digit, and times a power of ten gives the value |
| DecimalFormat.PrecisionPower | include/base/string_stream.h:180-187 | the power computed by the precision loop is at least 1 |
| DecimalFormat.DivideAndRound | include/base/string_stream.h:317-320 | `divide_and_round(a, b)` is a / b rounded half up: r * b <= a + b/2 < (r + 1) * b |
| DecimalFormat.RoundedPartsBelowMultPow | include/base/string_stream.h:228-246 | below precision 7: integral * 10^p + fraction is the magnitude rounded half up to p decimals, and the fraction stays below 10^p after the carry |
| DecimalFormat.RoundedPartsAboveMultPow | include/base/string_stream.h:234-237 | at precision 7 and above: the integral part is truncated and the fraction is exact, scaled by 10^(p-7) |
| DecimalFormat.RoundedPartsNegativePrecision | include/base/string_stream.h:180-187 | a negative precision prints the integral part truncated, with a zero fraction |
| DecimalFormat.RoundedPartsNonNegative | include/base/string_stream.h:228-246 | both parts are non-negative |
| DecimalFormat.FractionTextFilled | include/base/string_stream.h:309-315 | with zero-fill after the point the fraction prints as '.' and exactly p digits that read back as the fraction |
| DecimalFormat.FractionTextUnfilled | include/base/string_stream.h:309-315 | without that fill a nonzero fraction prints as '.' and at most p digits ending in a nonzero digit, which scaled back give the fraction |
| DecimalFormat.FractionTextZero | include/base/string_stream.h:311 | a zero fraction without fill prints nothing |
| DecimalFormat.DecimalTextSign | include/base/string_stream.h:228-233 | the text starts with '-' exactly when the numerator is negative, so a small negative rounds to "-0" |
| DecimalFormat.DecimalTextCarryExample | include/base/string_stream.h:239-243 | 1.9999999 at precision 6 prints "2" |
| DecimalFormat.DecimalTextFractionExamples | include/base/string_stream.h:228-246 | 1.3 and -1.3 print as "1.3" and "-1.3" |
| DecimalFormat.DecimalTextNegativeZeroExample | include/base/string_stream.h:228-246 | -0.0000001 at precision 6 prints "-0" |
| DecimalFormat.DecimalTextFillExamples | include/base/string_stream.h:309-315 | with zero-fill after the point, 5 prints "5.000" at precision 3 and "5.0" at precision 0 |
| DecimalFormat.DecimalTextLowPrecisionExamples | include/base/string_stream.h:180-187 | 1.5 at precision 0 prints "2"; 1.9 at precision -1 prints "1" |
| DecimalFormat.FractionTextExample | include/base/string_stream.h:309-315 | the fraction 300000 at precision 6 prints ".3" |
| StringStreams.DigitsFit | include/base/string_stream.h:258 | every value of the type has fewer digits than the scratch buffer holds |
| StringStreams.RenderIntegral | include/base/string_stream.h:255-307 | the scratch-buffer algorithm produces exactly the signed, zero-filled, optionally stripped text |
| StringStreams.WriteSigned | include/base/string_stream.h:261-290 | the digits and sign written backwards form the signed text |
| StringStreams.WriteMagnitude | include/base/string_stream.h:264-283 | the two chunk loops and the last digit write the digit text of the magnitude |
| StringStreams.PutChunk3 | include/base/string_stream.h:265-271 | one pass of the 3-digit loop keeps the done part and the remaining value equal to the whole text |
| StringStreams.PutChunk2 | include/base/string_stream.h:273-279 | one pass of the 2-digit loop keeps that invariant |
| StringStreams.FillZeroes | include/base/string_stream.h:292-296 | the fill step puts max(0, fill - length) zeros in front of the text |
| StringStreams.TrailingZerosStart | include/base/string_stream.h:297-305 | the backward scan stops just after the last nonzero character |
| StringStreams.CStrIdempotent | include/base/string_stream.h:76-81 | `c_str` appends one NUL at most once and leaves the buffer NUL-terminated |
| StringStreams.ViewWithoutTerminator | include/base/string_stream.h:87-93 | `view` is the buffer without its terminating NUL, and `c_str` does not change it |
| StringStreams.UntilNul | include/base/string_stream.h:326-330 | `strlen` stops at the first NUL |
| StringStreams.IntegralTexts | include/base/string_stream.h:336-342 | each range element renders as its signed text |
| StringStreams.JoinSplit | include/base/string_stream.h:332-344 | joining two non-empty lists is joining each with one ", " between |
| StringStreams.RangeTextExamples | include/base/string_stream.h:332-344 | the empty range prints "[  ]"; [1] prints "[ 1 ]"; [1, 2, 3] prints "[ 1, 2, 3 ]" |
| StringStreams.PartsFit | include/base/string_stream.h:228-245 | the parts that `put_decimal` hands on fit int64 and the scratch buffer |
| StringStreams.StringStream.constructor | include/base/string_stream.h:56 | an empty buffer with precision 6, power 10^6 and no fill after the point |
| StringStreams.StringStream.FromBuffer | include/base/string_stream.h:58 | the given buffer with the default settings |
| StringStreams.StringStream.Init | include/base/string_stream.h:249-253 | precision 6, power 10^6, no fill after the point |
| StringStreams.StringStream.Empty | include/base/string_stream.h:68-70 | true exactly for an empty buffer |
| StringStreams.StringStream.Clear | include/base/string_stream.h:72-74 | the buffer becomes empty |
| StringStreams.StringStream.CStr | include/base/string_stream.h:76-81 | a NUL is appended unless the buffer already ends in one; the result is the buffer |
| StringStreams.StringStream.View | include/base/string_stream.h:87-93 | the buffer without a trailing NUL |
| StringStreams.StringStream.PutChars | include/base/string_stream.h:322-324 | the characters are appended |
| StringStreams.StringStream.PutCString | include/base/string_stream.h:326-330 | a null pointer appends nothing; otherwise the characters before the first NUL are appended |
| StringStreams.StringStream.PutChar | include/base/string_stream.h:126 | the character is appended |
| StringStreams.StringStream.PutEndl | include/base/string_stream.h:194-196 | `std::endl` appends '\n' |
| StringStreams.StringStream.SetPrecision | include/base/string_stream.h:180-187 | precision becomes min(p, 9) and the power becomes 10^precision (1 when it is not positive) |
| StringStreams.StringStream.SetFillZeroes | include/base/string_stream.h:189-192 | the fill-after-point flag is set |
| StringStreams.StringStream.PutIntegralImpl | include/base/string_stream.h:255-307 | the buffer grows by the signed, zero-filled, optionally stripped text |
| StringStreams.StringStream.PutIntegral | include/base/string_stream.h:113-122 | `<<` of an integer appends its zero-filled text |
| StringStreams.StringStream.PutDecimalParts | include/base/string_stream.h:309-315 | appends the integral text, then the fraction text at the current precision |
| StringStreams.StringStream.PutDecimal | include/base/string_stream.h:228-246 | `<<` of a Decimal appends the sign, the rounded integral part and the fraction text |
| StringStreams.StringStream.PutRange | include/base/string_stream.h:332-344 | `<<` of a container appends "[ ", the elements separated by ", ", then " ]" |
| StringStreams.StringStream.PutRangeItem | include/base/string_stream.h:337-341 | one loop pass appends the separator when one is due, then the element |
| StringStreams.StringStream.PutPair | include/base/string_stream.h:154-157 | `<<` of a pair appends the key, ": ", then the value |
| OrdersSnapshot.SecurityOrdersSnapshot.constructor | include/security_orders_snapshot.h:20-25 | both sides start with no orders and zero deleting amount |
| OrdersSnapshot.SecurityOrdersSnapshot.GetVolumeByPrice | include/security_orders_snapshot.h:27-33 | the volume at a price is the sum of the live remaining amounts over the active positions whose order is at that price, a subset of the active positions; with non-negative rests it lies between 0 and the active volume |
| OrdersSnapshot.SecurityOrdersSnapshot.ActiveOrdersCount | include/security_orders_snapshot.h:36-41 | the count is the number of positions holding an active order, at most the list length |
| OrdersSnapshot.SecurityOrdersSnapshot.ActiveOrdersVolume | include/security_orders_snapshot.h:44-49 | the volume is the sum of the live remaining amounts over the set of active positions (the set whose size is the count); no active orders means zero volume |
| OrdersSnapshot.SecurityOrdersSnapshot.Size | include/security_orders_snapshot.h:52-54 | the number of orders on both sides, which bounds both active counts |
| OrdersSnapshot.CountActiveBound | include/security_orders_snapshot.h:36-41 | the count is at most the length, with equality exactly when every order is active |
| OrdersSnapshot.VolumeAtPriceIsRestsAt | include/security_orders_snapshot.h:27-33 | the price fold equals the sum of live remaining amounts over the active positions at that price, which are among the active positions |
| OrdersSnapshot.VolumeAtPricePrefix | include/security_orders_snapshot.h:27-33 | on every prefix, the price fold equals that sum restricted to the prefix's positions |
| OrdersSnapshot.VolumeActiveIsRestsAt | include/security_orders_snapshot.h:44-49 | the volume fold equals the sum of live remaining amounts over the active positions |
| OrdersSnapshot.VolumeActivePrefix | include/security_orders_snapshot.h:44-49 | on every prefix, the fold equals that sum restricted to the prefix's positions |
| OrdersSnapshot.CountActiveIsCardinality | include/security_orders_snapshot.h:36-41 | the fold equals the size of the set of active positions |
| OrdersSnapshot.FoldsAdditive | include/security_orders_snapshot.h:28-49 | count and both volumes distribute over concatenation |
| OrdersSnapshot.VolumeAtPriceBounded | include/security_orders_snapshot.h:28-49 | with non-negative rests, 0 <= volume at a price <= active volume |
| OrdersSnapshot.NoActiveNoVolume | include/security_orders_snapshot.h:28-49 | no active order means both volumes are zero |
| OrdersSnapshot.QueriesIgnoreCache | include/security_orders_snapshot.h:28-49 | the queries read the live orders, not the amounts cached in the snapshots |
| StrategyActions.BidThenAskConcat | strategies/stay_on_best_price_strategy/stay_on_best_price_strategy.cpp:17 | BID-only calls followed by ASK-only calls are ordered by side |
| DealsCountDiff.CountDeals | strategies/deals_count_diff_strategy/deals_count_diff_strategy.cpp:33-35 | each counter grows by the number of deals on its side |
| DealsCountDiff.UserStrategy.constructor | strategies/deals_count_diff_strategy/deals_count_diff_strategy.cpp:19-24 | counters and reset time start at 0; the defaults are 100 deals and 10 ms |
| DealsCountDiff.UserStrategy.TradingDealsUpdate | strategies/deals_count_diff_strategy/deals_count_diff_strategy.cpp:32-59 | the new counters and the orders sent are those of `DealsUpdate` |
| DealsCountDiff.CountDirAdditive | strategies/deals_count_diff_strategy/deals_count_diff_strategy.cpp:33-35 | counting distributes over concatenated deal lists |
| DealsCountDiff.CountsPartitionDeals | strategies/deals_count_diff_strategy/deals_count_diff_strategy.cpp:33-35 | every deal is counted on exactly one side |
| DealsCountDiff.CountDirIgnoresOrder | strategies/deals_count_diff_strategy/deals_count_diff_strategy.cpp:33-35 | the counts depend on the multiset of deals, not on their order |
| DealsCountDiff.DealsUpdateIgnoresOrder | strategies/deals_count_diff_strategy/deals_count_diff_strategy.cpp:32-59 | deals delivered in another order give the same outcome |
| DealsCountDiff.TradeOnMajoritySide | strategies/deals_count_diff_strategy/deals_count_diff_strategy.cpp:36-46 | an order is sent exactly when the counts differ by at least the threshold; it is one IOC lot on a side counted at least as often as the other (ASK on a tie), at the opposite side's best price |
| DealsCountDiff.ResetRule | strategies/deals_count_diff_strategy/deals_count_diff_strategy.cpp:48-58 | a trade or an elapsed period clears both counters and restarts the period at now; otherwise every new deal stays counted and the reset time is kept |
| DealsCountDiff.BalancedAfterUpdate | strategies/deals_count_diff_strategy/deals_count_diff_strategy.cpp:36-58 | with a positive threshold, the stored counts never differ by the threshold once an update is over |
| DealsCountDiffWithLimit.UserStrategy.constructor | strategies/deals_count_diff_with_limit_strategy/deals_count_diff_with_limit_strategy.cpp:12-20 | counters, reset time and total start at 0, not finished; the defaults are 100, 10 ms and 1000 |
| DealsCountDiffWithLimit.UserStrategy.TradingDealsUpdate | strategies/deals_count_diff_with_limit_strategy/deals_count_diff_with_limit_strategy.cpp:35-66 | the new state and the orders sent are those of `LimitedDealsUpdate` |
| DealsCountDiffWithLimit.UserStrategy.ExecutionReportUpdate | strategies/deals_count_diff_with_limit_strategy/deals_count_diff_with_limit_strategy.cpp:70-75 | the new state is that of `ReportUpdate` |
| DealsCountDiffWithLimit.FinishedIsFinal | strategies/deals_count_diff_with_limit_strategy/deals_count_diff_with_limit_strategy.cpp:36-38 | once finished, any later callbacks keep it finished, send nothing and leave the counters alone |
| DealsCountDiffWithLimit.TotalCountsEveryReport | strategies/deals_count_diff_with_limit_strategy/deals_count_diff_with_limit_strategy.cpp:70-71 | the total is the initial total plus every reported amount |
| DealsCountDiffWithLimit.LatchTracksTotal | strategies/deals_count_diff_with_limit_strategy/deals_count_diff_with_limit_strategy.cpp:70-75 | with non-negative amounts, "finished" and "total over the cap" stay equal once they start equal |
| DealsCountDiffWithLimit.FinishedIffOverCap | strategies/deals_count_diff_with_limit_strategy/deals_count_diff_with_limit_strategy.cpp:12-20 | from the initial state, finished exactly when the reported lots exceed the cap |
| DealsCountDiffWithLimit.ReportKeepsCountersAndLatch | strategies/deals_count_diff_with_limit_strategy/deals_count_diff_with_limit_strategy.cpp:70-75 | a report never touches the counters, never clears the latch, and sets it only when the new total exceeds the cap |
| DealsCountDiffWithLimit.UnfinishedActsAsBase | strategies/deals_count_diff_with_limit_strategy/deals_count_diff_with_limit_strategy.cpp:40-65 | while not finished, a deals update is exactly the plain strategy's |
| StayOnBestPrice.TradingBookUpdate | strategies/stay_on_best_price_strategy/stay_on_best_price_strategy.cpp:15-31 | the calls made are BID's decision followed by ASK's |
| StayOnBestPrice.UpdateSide | strategies/stay_on_best_price_strategy/stay_on_best_price_strategy.cpp:18-29 | one side's calls are its `Decide` |
| StayOnBestPrice.DecideRule | strategies/stay_on_best_price_strategy/stay_on_best_price_strategy.cpp:18-29 | nothing is sent exactly when the side has an active order and its first order is at the best price; otherwise one lot goes to the best price, preceded by deleting the first order when there are active orders |
| StayOnBestPrice.StaysOnBest | strategies/stay_on_best_price_strategy/stay_on_best_price_strategy.cpp:18-29 | after the update each side keeps its first order at the best price or has asked for a lot there |
| StayOnBestPrice.UpdateShape | strategies/stay_on_best_price_strategy/stay_on_best_price_strategy.cpp:17-30 | at most four calls; when every order is filed under its own side, all BID calls come before all ASK calls |
| StayOnBestPrice.DecideOnSide | strategies/stay_on_best_price_strategy/stay_on_best_price_strategy.cpp:18-29 | every call for a side concerns that side |
| StayOnBestPriceImproved.AddLimitOrderIf | strategies/stay_on_best_price_improved_strategy/stay_on_best_price_improved_strategy.cpp:38-42 | one add at most, made exactly when the condition holds |
| StayOnBestPriceImproved.UserStrategy.constructor | strategies/stay_on_best_price_improved_strategy/stay_on_best_price_improved_strategy.cpp:13-15 | the minimum volume defaults to 10 |
| StayOnBestPriceImproved.UserStrategy.TradingBookUpdate | strategies/stay_on_best_price_improved_strategy/stay_on_best_price_improved_strategy.cpp:19-36 | the calls made are BID's decision followed by ASK's |
| StayOnBestPriceImproved.UserStrategy.UpdateSide | strategies/stay_on_best_price_improved_strategy/stay_on_best_price_improved_strategy.cpp:22-34 | one side's calls are its `DecideSide` |
| StayOnBestPriceImproved.OpenGateActsAsBasic | strategies/stay_on_best_price_improved_strategy/stay_on_best_price_improved_strategy.cpp:24-33 | with enough volume it decides exactly as the plain stay-on-best-price strategy |
| StayOnBestPriceImproved.ClosedGateOnlyDeletes | strategies/stay_on_best_price_improved_strategy/stay_on_best_price_improved_strategy.cpp:24-33 | with too little volume nothing is added, and the first order is deleted exactly when the side has an active order |
| StayOnBestPriceImproved.AddsOnlyWhereVolume | strategies/stay_on_best_price_improved_strategy/stay_on_best_price_improved_strategy.cpp:22-42 | every add is one lot at its side's best price on a side whose volume reaches the minimum |
| StayOnBestPriceImproved.UpdateShape | strategies/stay_on_best_price_improved_strategy/stay_on_best_price_improved_strategy.cpp:21-35 | at most four calls; when every order is filed under its own side, all BID calls come before all ASK calls |

## Left out

- Floating point. `Decimal(double)`, the `long double` `_dc` literal, `get_double`, `operator<<(std::ostream&, Decimal)` and `put_double` are not modelled: IEEE rounding is out of scope.
- Declared-only operations. The bodies of `Decimal(mantissa, exponent)`, `*=`/`/=` and `*`/`/` between Decimals or with `double`, `get_int`, `round` and `integer_division` are not in the header, so they are not modelled.
- Lookup tables. `DigitTables` and `stored_pow10` (base/pows10.h) are not part of this model. The digit tables are modelled as the functions `Chunk3`/`Chunk2`, and `stored_pow10(k)` as exact 10^k.
- Decimals.DivInt, Decimals.MulInt, Decimals.Add and the other arithmetic: int64 overflow is excluded by preconditions rather than modelled as wrap-around, because the C++ behaviour there is undefined. The `static_cast<int64_t>` of an unsigned argument above INT64_MAX is defined (it wraps modulo 2^64, so `Decimal(UINT64_MAX)` is `Decimal(-1)`); Decimals.FromInteger, Decimals.LiteralDc, Decimals.MulInt and Decimals.DivInt exclude such arguments rather than model the wrap.
- Decimals.Hash: `std::hash<int64_t>` is a parameter, because its values are implementation-defined.
- StringStreams.StringStream.PutIntegralImpl: the first chunk loop runs while the value is at least 100, as the code does. A value that is exactly 3 digits long therefore goes through the 3-digit table.
- StringStreams.StringStream.PutIntegralImpl: zero-fill of a negative number puts the zeros in front of the '-', as the code does, rather than excluding such calls.
- StringStreams.StringStream.PutIntegralImpl requires the fill width to fit the scratch buffer, and requires a nonzero value when trailing zeros are removed. Otherwise the C++ writes or reads before the buffer.
- StringStreams.StringStream.SetPrecision: a negative precision is kept as the code keeps it. The power is then 1 and the fraction always rounds to 0, truncating the integral part. For a precision below -11 the index 7 - p passes the last entry of `stored_pow10` (index 18, the largest power of ten that fits int64); the model uses the exact power there, a value the source's table does not hold.
- StringStreams.StringStream.PutRange is modelled for containers of integers only. StringStreams.StringStream.PutPair is modelled for a text key and an integer value only.
- StringStreams.StringStream.PutDecimal requires the numerator to differ from INT64_MIN, whose negation overflows.
- The stream's `Seconds`/`Milliseconds`/`Microseconds` overloads are not modelled separately: they call `put_integral` on the count.
- Not modelled: `std_str`, `data`, `size`, `reserve` and the `buffer()` accessors, which only expose the container, and the `StringView`, `char` array and `std::string` overloads, which only forward to `put_chars`.
- `Container` is fixed to `std::vector<char>`, the `StringStream` instantiation.
- OrdersSnapshot.SecurityOrdersSnapshot.GetVolumeByPrice and OrdersSnapshot.SecurityOrdersSnapshot.ActiveOrdersVolume: the `Amount` sums of `std::accumulate` are unbounded integers; int32 overflow of the accumulation is not modelled.
- `SecurityOrdersSnapshot::clear` is declared only.
- DealsCountDiff.UserStrategy.TradingDealsUpdate requires every deal's direction to be BID or ASK, because the counter array has two entries. The `int` counters, the `Microseconds` difference and `deals_reset_period_ms_` in microseconds are unbounded: int32/int64 overflow is not modelled.
- DealsCountDiffWithLimit.UserStrategy.ExecutionReportUpdate: the `Amount` total `our_deals_total_amount_` is unbounded; int32 overflow is not modelled.
- StayOnBestPriceImproved.UserStrategy.TradingBookUpdate: `best_volume` is an `int64_t` narrowed to `Amount`; the narrowing is not modelled.
- The stay-on-best strategies copy the snapshot (`auto our_orders = ...`). Nothing changes it during the loop, so the model reads the snapshot directly.
- Not modelled: the simulator itself (order matching, order states after `delete_order`, execution reports), `ContestBookInfo::update`, logging, JSON parsing beyond the defaults, exceptions and the console output of the constructors.
- Not modelled: `perf_time.h` (hardware ticks), the empty `user_strategy.cpp`, and `download.py`/`run.py`.
