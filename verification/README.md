# Verified model of OceanBase's value layer

OceanBase Database Proxy carries a value layer shared by its SQL parser, its partition calculator and
its wire formats: fixed-point decimals held as two's-complement integers, objects of mixed types and
the order among them, casts, escapers, rows, row keys, ranges and record headers. This project models
that layer in Dafny and proves what its callers rely on.

## What is modelled

* **Decimal integers.** `TwosComplement` and `DecimalIntBuilders` hold a decimal as little-endian bytes
  of some width; `WideInteger` models the scaling loops of `lib/wide_integer` with every intermediate
  wrapped to the C++ type that holds it, and `Limbs` the 64-bit words below them: the carry loop, the
  division loop and negation. `DatumCast` brings a decimal to a column's precision and scale
  and `DatumCastLaws` says what that means: a query constant rounded for the comparison it stands in
  selects the same rows as the constant itself, and an explicit cast is a monotone nearest-value
  projection.
* **Order.** `ObjCompare` models the table of comparators written per pair of type classes for NULL, MIN,
  MAX, integers and decimals; `ObjOrder` proves that together they are one total preorder on rational
  values. `Temporal` does the same for the date and timestamp families against one UTC time line.
  `Rowkey` and `Range2` lift the order to rows and to range endpoints.
* **Casts and codecs.** `ObjCast` (integer casts, digit counts), `NumberRangeCheck` (the DECIMAL(p, s)
  bound written as a digit string and read back), `HexUtils`, `SqlEscape`, `RowChecksum`, `Vi64`.
* **Rows and records.** `Row` (deep copy into one buffer), `IndexHashSet` and `RowDesc` (the column index
  of a row descriptor and its serialization), `RecordHeader` (exclusive-or header checksums, versions 1
  and 2).

`Arithmetic`, `Buffers` and `Errors` are shared.

Objects whose methods update fields are classes, buffers are arrays, loops are loops; each is proved
against a specification function or a property, and the laws are lemmas about those.

## Where the code does not do what it is for

Each of these is proved: the exact condition under which the code is right, and an input that fails.

* Scaling down the smallest value of a width loses its sign, and scaling up past 512 bits wraps
  (`DatumCastLaws.ConstCastPreservesIff`, `DatumCastLaws.SmallestValueLosesSign`,
  `DatumCastLaws.ProductPastInt512Wraps`,
  `DatumCastLaws.CommonScaledIff`, `ObjOrder.CmpDecimalIff`). No decimal that fits its own declared
  precision, moved by at most 72 digits, is affected (`DatumCastLaws.WellFormedNoOverflow`).
* With an integer on the left and a decimal on the right the boolean comparators answer the swapped
  question (`ObjCompare.IntegerDecimalOpIff`, `ObjCompare.IntegerDecimalLessWrong`).
* A Timestamp compared with the nanosecond timestamp types is taken for local time
  (`Temporal.UtcOrderIff`, `Temporal.TimestampBreaksTransitivity`).
* Row keys over the same cell array are compared by length alone, which differs from comparing them when
  the shorter one is all MAX or both are all MIN (`Rowkey.ShortcutIff`, `Rowkey.MaxPrefixDisagrees`).
* `empty()` of a range leaves sort directions out (`Range2.EmptyIff`, `Range2.DescendingRangeCalledEmpty`).
* The endpoint comparators are not antisymmetric between ranges that carry different sort directions
  (`Range2.EndpointsAntisymmetricIff`, `Range2.OppositeInfosBreakAntisymmetry`).
* The endpoint comparators are not transitive among ranges of which only one carries sort directions
  (`Range2.EndpointsTransitiveIff`, `Range2.OneInfoBreaksTransitivity`).
* The index hash set marks untouched slots with a value that enters its own member window after one
  reset in every 5859437; the next probe then reads past the column array
  (`IndexHashSet.UntouchedReadsEmptyIff`, `RowDesc.FirstProbeReadsOutside`).
* A deep copy shares memory with its source when a cell is a text, a national string, a raw, a LOB locator
  or a user-defined value; all but texts are paid for nevertheless (`Row.CopyIsSelfContainedIff`,
  `Row.UsedSizeIff`, `Row.SharedPayloads`). The copy of a row without projector keeps the old projector of
  its target (`Row.NewRow.DeepCopy`), and copying a cell may change its collation (`Row.CopiedMetaIff`,
  `Row.JsonCollationLost`).
* The version 1 header checksum covers 16 bits of the time stamp and does not notice a complemented magic
  number (`RecordHeader.TimestampChangeShowsIff`, `RecordHeader.TimestampChangeMissed`,
  `RecordHeader.MagicChangeShowsIff`, `RecordHeader.MagicChangeMissed`).
* The comment in `ob_row_desc.h` gives 512 columns; the constant it names is 640, and the model uses 640.

## Model

| member | source | states |
|---|---|---|
| TwosComplement.SignExtension | src/lib/wide_integer/ob_wide_integer.h:1511-1527 | filling any number of high bytes with the sign keeps the signed value |
| TwosComplement.Truncation | src/lib/wide_integer/ob_wide_integer.h:1502-1509 | dropping high bytes reduces the value modulo the smaller width |
| TwosComplement.SignedFromInt | src/lib/wide_integer/ob_wide_integer.h:1439-1445 | an integer stored in n bytes reads back as itself when it fits n bytes and as its wrapped value otherwise |
| DecimalIntBuilders.DecimalIntBuilder.FromBytes | src/lib/wide_integer/ob_wide_integer.h:1473-1478 | the buffer holds the given bytes, at most 64 of them |
| DecimalIntBuilders.DecimalIntBuilder.FromBuilder | src/lib/wide_integer/ob_wide_integer.h:1467-1471 | copies the stored bytes of another builder, or of itself |
| DecimalIntBuilders.DecimalIntBuilder.Truncate | src/lib/wide_integer/ob_wide_integer.h:1502-1509 | keeps the low bytes; the value is reduced modulo the new width |
| DecimalIntBuilders.DecimalIntBuilder.Extend | src/lib/wide_integer/ob_wide_integer.h:1511-1527 | grows to the width and denotes the same integer |
| WideInteger.BoundsFit | src/lib/wide_integer/ob_wide_integer.h:1734-1778 | 10^p and its negation fit the byte width chosen for precision p, for every precision up to 81 |
| WideInteger.WidthIsLeast | src/lib/wide_integer/ob_wide_integer.h:1734-1749 | no narrower supported width holds 10^p |
| WideInteger.MultiplyByPow10 | src/lib/wide_integer/ob_wide_integer.h:1814-1833 | the binary-digit loop yields the product with 10^scale modulo 2^512, for every scale |
| WideInteger.ScaleUpDecimalint | src/lib/wide_integer/ob_wide_integer.h:1814-1847 | the product is stored in the narrowest width that holds it |
| WideInteger.NarrowestIsLeast | src/lib/wide_integer/ob_wide_integer.h:1834-1847 | every supported width that holds the product is at least as wide as the one it is stored in |
| WideInteger.DivideByPow10 | src/lib/wide_integer/ob_wide_integer.h:1849-1875 | the chunked division truncates, and the last carry says whether the dropped digits are at least a half |
| Arithmetic.CDivTruncates | src/lib/wide_integer/ob_wide_integer.h:904-975 | the division operator of the scaling loops cuts off toward zero, and its remainder has the sign of the dividend |
| WideInteger.ScaleDownDecimalintForRound | src/lib/wide_integer/ob_wide_integer.h:1849-1880 | rounds halves away from zero at the original width, except that the smallest value loses its sign |
| WideInteger.ScaleDownDecimalintForTrunc | src/lib/wide_integer/ob_wide_integer.h:1882-1904 | truncates toward zero at the original width, except that the smallest value loses its sign |
| WideInteger.CommonScaleDecimalint | src/lib/wide_integer/ob_wide_integer.cpp:154-175 | null and unsupported widths are errors; otherwise the value is scaled up, rounded or truncated, in the narrowest width going up and the original width going down |
| WideInteger.Compare | src/lib/wide_integer/ob_wide_integer_cmp_funcs.h:60-76 | the sign of the difference for every pair of supported widths, an error otherwise |
| Limbs.UnaryMinus | src/lib/wide_integer/ob_wide_integer.h:715-735 | complementing the words and rippling a carry negates the value modulo 2^(64n), for any number of words |
| Limbs.MultiplyMagnitude | src/lib/wide_integer/ob_wide_integer.h:748-755 | the carry loop yields the product with a 64-bit factor modulo 2^(64n); its 128-bit accumulator never overflows |
| Limbs.Multiply | src/lib/wide_integer/ob_wide_integer.h:737-787 | the value of the result is the product wrapped to the width, for factors of at most 64 bits of either sign and every left operand, the smallest included |
| Limbs.DivideMagnitude | src/lib/wide_integer/ob_wide_integer.h:951-965 | the division loop yields quotient and remainder of the whole number, word by word from the top |
| Limbs.Divide | src/lib/wide_integer/ob_wide_integer.h:904-975 | over all five branches the quotient truncates toward zero, wrapped to the width, and the remainder has the sign of the dividend, the smallest dividend included |
| Limbs.QuotientWrapsIff | src/lib/wide_integer/ob_wide_integer.h:904-975 | the quotient is representable, so nothing wraps, for every operand pair but the smallest value over -1 |
| DatumCast.DropDecimals | src/common/ob_datum_cast.cpp:48-67 | for every magnitude and scale, past 31 and with the early exit, the quotient truncates and the flag says a nonzero digit was dropped |
| DatumCast.ScaleDownDecimalint | src/common/ob_datum_cast.cpp:37-81 | the result is the ceiling, floor or truncation of x / 10^scale as the mode asks, and the flag is set when digits were lost |
| DatumCastLaws.InexactIff | src/common/ob_datum_cast.cpp:42-81 | the extra-decimals flag equals "10^scale does not divide x" for every x but the smallest of its width |
| DatumCast.ClampToWidth | src/common/ob_datum_cast.cpp:112-129 | saturates strictly outside the bounds, otherwise re-sizes to the expected width without changing the value |
| DatumCast.DoScale | src/common/ob_datum_cast.cpp:88-108 | scales by the difference of scales at the width of the constant, and reports other widths |
| DatumCast.ScaleConstDecimalintExpr | src/common/ob_datum_cast.cpp:83-133 | the result has exactly the width of the output precision and is the rounded constant saturated to the column, or the upper sentinel for an inexact constant under = |
| DatumCastLaws.ConstCastPreserves | src/common/ob_datum_cast.cpp:83-133 | for every column value and every constant without overflow, UP keeps >= and <, DOWN keeps <= and >, EQ keeps = and <>, saturation and sentinel included |
| DatumCastLaws.ConstCastPreservesIff | src/common/ob_datum_cast.cpp:83-133 | all six comparisons are kept if and only if the scaling step does not overflow, or overflows beyond the column on the right side |
| DatumCastLaws.SmallestValueLosesSign | src/common/ob_datum_cast.cpp:42-47 | the smallest 32-bit decimal at scale 1 becomes positive, and <= selects the wrong rows |
| DatumCastLaws.ProductPastInt512Wraps | src/common/ob_datum_cast.cpp:88-96 | the smallest 512-bit decimal at one more decimal wraps to 0, and <= selects a wrong row |
| DatumCastLaws.WellFormedNoOverflow | src/common/ob_datum_cast.cpp:88-96 | a decimal within its declared precision moved by at most 72 digits never overflows |
| DatumCast.AlignDecintPrecisionUnsafe | src/common/ob_datum_cast.cpp:21-35 | the value survives re-sizing exactly when the expected width holds it, and is wrapped otherwise |
| DatumCast.CommonScaleDecimalint | src/common/ob_datum_cast.cpp:135-189 | by the mode bits themselves: the range-checked result with its width for any constant, column-convert or explicit-cast bit, otherwise the unchecked result, which keeps value and width when the precision is unknown; each error |
| DatumCastLaws.CheckedCastMeans | src/common/ob_datum_cast.cpp:83-169 | with exactly one constant bit, whatever other bits are set, the value returned keeps the comparisons of that bit; without one it is the nearest value, halves away from zero, saturated to the column |
| DatumCastLaws.CommonScaledIff | src/common/ob_datum_cast.cpp:149-169 | the scaling step is exact upward and rounds to nearest downward if and only if it does not overflow |
| DatumCastLaws.TruncatedIff | src/lib/wide_integer/ob_wide_integer.h:1882-1904 | truncating is right for every value but a smallest one that does not truncate to zero |
| DatumCastLaws.ExplicitCastMonotone | src/common/ob_datum_cast.cpp:149-169 | a smaller input never casts to a larger result |
| DatumCastLaws.ExplicitCastNearest | src/common/ob_datum_cast.cpp:149-169 | unless it saturates the result is within half a unit of the last digit |
| DatumCastLaws.ExplicitCastBracketed | src/common/ob_datum_cast.cpp:83-169 | the explicit cast lies between the DOWN and UP constants of the same value |
| DatumCastLaws.ExplicitCastRoundTrip | src/common/ob_datum_cast.cpp:149-169 | widening to more decimals and casting back returns the value |
| ObjCompare.CompareDecimals | src/common/ob_obj_compare.cpp:421-461 | scales the side of smaller scale up in a builder and returns the sign of the difference |
| ObjCompare.OpAgrees | src/common/ob_obj_compare.cpp:53-281 | every boolean comparator is the three-way result tested against zero, NULL included, for all modelled pairs but integer against decimal |
| ObjCompare.OpMeans | src/common/ob_obj_compare.cpp:53-281 | each of the six operators answers 1 or 0 as the three-way result meets it, and 2 exactly for a NULL operand without null safety |
| ObjCompare.OperNullsafeMeans | src/common/ob_obj_compare.cpp:2187-2216 | asked null-safely, each operator holds exactly when the three-way result meets it |
| ObjCompare.OtherExtCompare | src/common/ob_obj_compare.cpp:100-281 | extend values other than MIN and MAX lie between the two and equal themselves; every other comparison with them is an error in both argument orders |
| ObjCompare.SymmetricOpAgrees | src/common/ob_obj_compare.cpp:131-281 | the forms that swap their operands and use the symmetric operator agree with the direct form |
| ObjCompare.IntegerDecimalOpIff | src/common/ob_obj_compare.cpp:572-579 | integer against decimal gives the negated swapped answer, right exactly for = and <> and for equal operands |
| ObjCompare.IntegerDecimalLessWrong | src/common/ob_obj_compare.cpp:572-579 | 1 < 2 with a decimal on the right is answered false |
| ObjOrder.CmpDecimalIff | src/common/ob_obj_compare.cpp:421-461 | on either side, the decimal comparator is the rational order against every decimal of the larger scale if and only if the scaled operand does not overflow |
| ObjOrder.CompareIsOrder | src/common/ob_obj_compare.cpp:2218-2244 | across all separately written cases, for every integer and every decimal of any scale whose comparison stays inside int512, the three-way result is MIN, NULL, rational value, MAX |
| ObjOrder.CompareExactPreorder | src/common/ob_obj_compare.cpp:2218-2244 | for any three objects that compare inside int512, comparison is reflexive, antisymmetric, transitive, and strict as soon as one step is |
| ObjOrder.DeclaredExact | src/common/ob_obj_compare.cpp:421-526 | decimals of at most 81 digits whose scales differ by at most 72 compare inside int512 |
| ObjOrder.CompareTotalPreorder | src/common/ob_obj_compare.cpp:2218-2244 | the same without conditions on pairs, for MIN, NULL, MAX, all integers and decimals of scale 0 to 72 |
| ObjOrder.CompareLayers | src/common/ob_obj_compare.cpp:116-240 | MIN < NULL < every number < MAX, in both argument orders, for decimals of any width, digits and scale |
| ObjOrder.ExtremesCompare | src/common/ob_obj_compare.cpp:116-240 | the MIN object is below every other object and the MAX object above, in both argument orders |
| Temporal.OpMomentAgrees | src/common/ob_obj_compare.cpp:820-1037 | the boolean temporal comparators are the three-way result tested against zero, a missing offset included |
| Temporal.OpMomentMeans | src/common/ob_obj_compare.cpp:820-1037 | with an offset each of the six operators answers 1 or 0 as the three-way result meets it |
| Temporal.InvalidOffsetCompare | src/common/ob_obj_compare.cpp:820-1037 | without an offset exactly the pairs of types that need one are an error, in both forms, and all others are ordered by stored microseconds and then the tail |
| Temporal.CmpMomentIsUtcOrder | src/common/ob_obj_compare.cpp:848-1037 | wherever the shift of the local side stays in 64 bits, the four families order local and UTC types by shifted microseconds and then the nanosecond tail |
| Temporal.CmpMomentIsUtcNs | src/common/ob_obj_compare.cpp:848-1037 | with tails below a microsecond that is the order of UTC nanoseconds |
| Temporal.UtcOrderIff | src/common/ob_obj_compare.cpp:887-986 | exactly which pairs of types are on the UTC time line, for any 64-bit offset: all but Timestamp against the nanosecond types, unless the offset is zero |
| Temporal.MomentTotalPreorder | src/common/ob_obj_compare.cpp:848-1037 | for one offset the comparisons among consistent types whose shifts stay in 64 bits are a total preorder |
| Temporal.TimestampBreaksTransitivity | src/common/ob_obj_compare.cpp:848-986 | a DateTime, a Timestamp and a TimestampTZ that compare in a circle |
| Rowkey.Compare | src/common/ob_rowkey.cpp:37-67 | the loop computes the lexicographic order with sort directions, all-MIN rows first and all-MAX rows last, for any cells |
| Rowkey.MixedRowsCompare | src/common/ob_rowkey.cpp:43-64 | between rows over different arrays that each have a cell other than MIN and one other than MAX, the first column that differs decides with its direction, and otherwise the lengths do |
| Rowkey.ExtremeRowsCompare | src/common/ob_rowkey.h:49-62 | a row of nothing but MIN lies below every row that is not one, the empty row included, and a row of nothing but MAX above; two of a kind are equal |
| Rowkey.ContentAntisymmetric | src/common/ob_rowkey.cpp:46-64 | comparison of row contents is reflexive and antisymmetric for every list of directions, decimals beyond int512 included |
| Rowkey.ContentTotalPreorder | src/common/ob_rowkey.cpp:46-64 | it is also transitive, and strict as soon as one step is, for any three rows that compare column by column inside int512 |
| Rowkey.OrderedExactCells | src/common/ob_rowkey.cpp:53-56 | rows of decimals of at most 81 digits and scale 0 to 72 always compare inside int512 |
| Rowkey.DirectionIff | src/common/ob_rowkey.cpp:54-55 | leaving the directions out changes nothing exactly when no descending column decides, and otherwise reverses the result, for any cells |
| Rowkey.ZeroUnderAnyDirections | src/common/ob_rowkey.cpp:53-61 | whether two rows differ does not depend on the directions |
| Rowkey.ShortcutIff | src/common/ob_rowkey.cpp:43-45 | comparing lengths of rows over one array agrees with comparing contents exactly when the shorter row also ranks lower |
| Rowkey.MaxPrefixDisagrees | src/common/ob_rowkey.cpp:43-49 | a one-cell all-MAX row and a longer row over the same array, ordered both ways |
| Range2.EndpointAntisymmetric | src/common/ob_range2.h:87-198 | both endpoint comparators are antisymmetric between ranges that fetch the same directions whichever asks, also when only one carries any |
| Range2.EndpointsAntisymmetricIff | src/common/ob_range2.h:87-198 | for ranges with two given infos each comparator is antisymmetric if and only if both calls fetch the same directions |
| Range2.OppositeInfosBreakAntisymmetry | src/common/ob_range2.h:87-198 | starts 5 and 4, one range ascending and the other descending: both calls return a positive number |
| Range2.EndpointTransitive | src/common/ob_range2.h:87-198 | both are transitive among ranges that fetch the same directions pairwise |
| Range2.EndpointsTransitiveIff | src/common/ob_range2.h:87-198 | for ranges with three given infos each comparator is transitive if and only if the three pairs are compared under the same directions |
| Range2.OneInfoBreaksTransitivity | src/common/ob_range2.h:87-198 | three ranges of which only the middle one carries a descending column, in a circle |
| Range2.EndpointsImplyContainment | src/common/ob_range2.h:87-198 | a range that starts no later and ends no earlier contains every key of the other, whichever of them carries directions |
| Range2.Equal2Iff | src/common/ob_range2.h:268-272 | equal2 holds exactly for one table, endpoints of equal contents under any directions at all, and the same bounds, unbounded sides included |
| Range2.Equal2Symmetric | src/common/ob_range2.h:87-272 | equal2 is reflexive and symmetric, between ranges with any two infos |
| Range2.Equal2SameKeys | src/common/ob_range2.h:268-272 | equal ranges with any two infos contain the same keys under every list of directions |
| Range2.Equal2Transitive | src/common/ob_range2.h:87-272 | equal2 is transitive, among ranges with any three infos |
| Range2.EmptyMeansNoKeys | src/common/ob_range2.h:203-216 | a range judged empty in the order of its keys contains none |
| Range2.NonEmptyHasKey | src/common/ob_range2.h:203-216 | a bounded range with an inclusive end judged non-empty contains a key |
| Range2.EmptyOfEnds | src/common/ob_range2.h:203-216 | a bounded range whose ends compare equal is empty unless both bounds are inclusive; ends in order are not empty and ends out of order are |
| Range2.EmptyIff | src/common/ob_range2.h:203-216 | empty() agrees with the order of the keys exactly when a side is unbounded or no descending column decides between the ends |
| Range2.DescendingRangeCalledEmpty | src/common/ob_range2.h:203-216 | a descending range from 5 to 3 is called empty and contains 4 |
| ObjCast.LimitsAreWidths | src/common/ob_obj_type.cpp:328-360 | the limits of the ten integer types are those of two's complement and unsigned numbers of 1, 2, 3, 4 and 8 bytes |
| ObjCast.ConversionsKeepBits | src/common/ob_obj_cast.cpp:894-1154 | conversions between signed and unsigned 64-bit values keep the bits |
| ObjCast.IntInt | src/common/ob_obj_cast.cpp:872-892 | narrowing between signed types checks, widening does not need to |
| ObjCast.IntUInt | src/common/ob_obj_cast.cpp:894-918 | the no-cast mode keeps the object, the checked cast saturates or fails, the unchecked cast reinterprets |
| ObjCast.UIntInt | src/common/ob_obj_cast.cpp:1130-1154 | the same for unsigned to signed, where no-cast also needs an external call |
| ObjCast.UIntUInt | src/common/ob_obj_cast.cpp:1156-1176 | narrowing between unsigned types checks, widening does not need to |
| ObjCast.CastInteger | src/common/ob_obj_cast.cpp:872-1176 | in warn mode with checks all four casts are saturation to the target range, for every stored value |
| ObjCast.SaturateMonotone | src/common/ob_obj_cast.cpp:872-1176 | saturation, and with it every such cast, never reverses two values |
| ObjCast.CastThroughIff | src/common/ob_obj_cast.cpp:872-1176 | casting through another type changes nothing for every value if and only if its range contains the final range |
| ObjCast.BoundTable | src/common/ob_obj_cast.cpp:469-508 | the 38 table entries are 9, 99, 999, ... outward from the middle, with the two integer limits at the ends |
| ObjCast.GetPrecisionForInteger | src/common/ob_obj_cast.cpp:466-517 | the walk stays inside the table and returns the number of decimal digits for every int64 and uint64 |
| NumberRangeCheck.WriteBound | src/common/ob_obj_cast.cpp:4857-4864 | the buffer reads as the signed and unsigned bound text, with the point stamped over one nine |
| NumberRangeCheck.BoundTextDenotes | src/common/ob_obj_cast.cpp:4857-4872 | read back, the text is exactly (10^p - 1) / 10^s and its negation, p = s and s = 0 included |
| NumberRangeCheck.CheckNumberRange | src/common/ob_obj_cast.cpp:4832-4892 | every branch: bad precision, no check, saturation with error or warning, rounding, bad arguments |
| NumberRangeCheck.CheckedIsDecimal | src/common/ob_obj_cast.cpp:4873-4885 | whatever number goes in, the result is a multiple of 10^-s with at most p digits |
| NumberRangeCheck.CheckedIdempotent | src/common/ob_obj_cast.cpp:4873-4885 | a second check finds the result in range and changes nothing |
| NumberRangeCheck.CheckedNearest | src/common/ob_obj_cast.cpp:4881-4885 | in range a number with no more decimals than the scale is returned unchanged, and any other moves by at most half a unit of the last decimal, by exactly half only away from zero |
| NumberRangeCheck.CheckedSaturates | src/common/ob_obj_cast.cpp:4873-4880 | exactly beyond (10^p - 1) / 10^s or its negation the result is that bound, on the side of the number |
| HexUtils.Hex | src/common/ob_obj_cast.cpp:568-593 | the loop writes two upper-case digits for every byte |
| HexUtils.DigitTable | src/common/ob_obj_cast.cpp:519-593 | digit d is the d-th of 0123456789ABCDEF, read in either case, and no other character is a digit |
| HexUtils.Unhex | src/common/ob_obj_cast.cpp:519-566 | succeeds if and only if every character is a hex digit, whatever lies past the end, and fills exactly the output |
| HexUtils.UnhexHex | src/common/ob_obj_cast.cpp:519-593 | unhex undoes hex for every byte string |
| HexUtils.HexUnhex | src/common/ob_obj_cast.cpp:519-593 | hex undoes unhex up to upper case and a leading zero for odd length |
| SqlEscape.ToString | src/common/ob_object.cpp:656-727 | writes exactly the first min(buffer, full length) bytes of the full escaping and nothing else, in both modes |
| SqlEscape.GetExtraLength | src/common/ob_object.cpp:729-761 | the full escaping is longer than the text by exactly this count |
| SqlEscape.ReadEscaped | src/common/ob_object.cpp:656-727 | the escaped text between quotes is read as one literal whose value is the text and which ends at the closing quote (MySQL Reference Manual, section 9.1.1) |
| SqlEscape.NothingRaw | src/common/ob_object.cpp:682-720 | the MySQL escaping contains no NUL, newline, return or tab, and no quote of either kind without a backslash before it |
| SqlEscape.PairTable | src/common/ob_object.cpp:656-727 | the escape pair of every character that has one, in both modes |
| SqlEscape.PlainUnchanged | src/common/ob_object.cpp:656-727 | a text is its own escaping exactly when it has none of the characters to escape |
| SqlEscape.EscapedInjective | src/common/ob_object.cpp:656-727 | different texts have different escapings |
| RowChecksum.ParseLength | src/common/ob_row_checksum.h:100-106 | the number of entries of a well-formed list is one more than its commas |
| RowChecksum.RowChecksumValue.String2ColumnChecksum | src/common/ob_row_checksum.h:96-144 | counts and parses: the array is exactly the list the grammar reads, or the format error with a null array; null and empty strings give no columns |
| RowChecksum.RowChecksumValue.Fill | src/common/ob_row_checksum.h:116-136 | the cursor stays inside the string, because the commas ahead are the entries left, and passes the terminator only after the last entry |
| RowChecksum.ParsePrinted | src/common/ob_row_checksum.h:96-144 | parsing the text id:sum,id:sum of any non-empty list of 64-bit pairs returns the list |
| RowChecksum.StrtoulSigned | src/common/ob_row_checksum.h:116-136 | a blank or plus sign before the digits changes nothing, a minus sign negates modulo 2^64 |
| RowChecksum.StrtoulNothing | src/common/ob_row_checksum.h:116-136 | where no number starts nothing is read and the value is 0 |
| RowChecksum.StrtoulSaturates | src/common/ob_row_checksum.h:116-136 | past 2^64 - 1 the value saturates |
| RowChecksum.ListTextExample | src/common/ob_row_checksum.h:96-144 | the text of one list, character by character |
| Row.CellSizeCoversPayload | src/common/ob_object.h:1750-1760 | the size of a cell covers what its copy moves, and exceeds it exactly for the types counted but not copied |
| Row.CellSizeByType | src/common/ob_object.h:1750-1760 | four bytes for each digit of a number, the length word for the other types that are counted, nothing for the rest |
| Row.MovedTypes | src/common/ob_object.cpp:256-306 | which types have their payload moved, are paid for and stay, or are texts, by number; together they are the types that hold a pointer |
| Row.CopiedMetaIff | src/common/ob_object.cpp:256-306 | a copied cell keeps type and scale, and its collation exactly under the stated conditions per type |
| Row.CopiedMetaIs | src/common/ob_object.cpp:256-306 | the collation and level each type has after the copy |
| Row.DeepCopyCell | src/common/ob_object.cpp:256-306 | fits: payload at the position, position advanced, nothing else touched; does not fit: nothing changes |
| Row.GetDeepCopySize | src/common/ob_row.cpp:59-69 | the loop sums object slots, projector and cell sizes |
| Row.SlotSizes | src/common/ob_row.cpp:59-69 | sixteen bytes for each cell and four for each projector entry, beside the payloads |
| Row.NewRow.DeepCopy | src/common/ob_row.cpp:94-123 | fails up front or not at all; then every cell keeps type, scale and length word or number descriptor, a moved payload reads back from its own region and any other cell is the source's; nothing outside is written |
| Row.RegionsDisjoint | src/common/ob_row.cpp:102-116 | cell array, payloads and projector lie one after the other without overlap |
| Row.CopiedReads | src/common/ob_object.cpp:256-306 | every copied payload reads back as the source payload after the whole row is copied |
| Row.CopyIsSelfContainedIff | src/common/ob_object.cpp:256-306 | no cell of the copy points to memory of the source if and only if no cell is a text or of a type counted but not copied |
| Row.SharedPayloads | src/common/ob_object.cpp:256-306 | a national string that is paid for and stays where it was, and a text that is not even paid for |
| Row.JsonCollationLost | src/common/ob_object.cpp:256-306 | copying a JSON cell replaces its collation type |
| Row.UsedSizeIff | src/common/ob_row.cpp:59-123 | the copy never uses more than the declared size, and all of it exactly when no cell is counted without being copied |
| Vi64.EncodedLengthIs | src/lib/utility/serialization.h:266-292 | the threshold chain is the length of the encoding for every int64 |
| Vi64.EncodingBytes | src/lib/utility/serialization.h:354-369 | byte i holds bits 7i to 7i + 6, the high bit marks every byte but the last, and there is no byte more than the value needs |
| Vi64.EncodeVi64 | src/lib/utility/serialization.h:354-369 | writes the encoding when it fits and nothing otherwise |
| Vi64.DecodeVi64 | src/lib/utility/serialization.h:371-395 | decodes or reports the end of data, whatever byte lies after the data |
| Vi64.DecodeEncoded | src/lib/utility/serialization.h:354-395 | decoding an encoded value returns it and the position after it |
| IndexHashSet.InsertHolds | src/lib/hash/ob_array_index_hash_set.h:59-93 | filling the empty slot where a probe ends keeps the table exact and every probe path unbroken |
| IndexHashSet.HashParts | src/common/ob_row_desc.h:47-47 | the hash is the low 48 bits of the table id over 16 bits of the column id, and the two do not overlap |
| IndexHashSet.ArrayIndexHashSet.Probe | src/lib/hash/ob_array_index_hash_set.h:59-114 | the probing loop ends at an empty slot, at a slot with an equal item or after all slots, having met other items only |
| IndexHashSet.ArrayIndexHashSet.SetIndex | src/lib/hash/ob_array_index_hash_set.h:59-93 | rejects positions past the table, reports an entry exactly when another held position has the item, and otherwise enters the position; only while untouched slots look occupied may it stop at one or find the table full |
| IndexHashSet.ArrayIndexHashSet.GetIndex | src/lib/hash/ob_array_index_hash_set.h:95-114 | finds an item the array holds at its position; a position past the array is only ever returned while untouched slots look occupied |
| IndexHashSet.ArrayIndexHashSet.Reset | src/lib/hash/ob_array_index_hash_set.h:121-130 | empties the set by moving the base, or by clearing near the top of the range |
| IndexHashSet.BaseCycle | src/lib/hash/ob_array_index_hash_set.h:121-130 | the base after any number of resets is 733 times that number modulo 5859437 |
| IndexHashSet.UntouchedReadsEmptyIff | src/lib/hash/ob_array_index_hash_set.h:121-140 | the marker of an untouched slot is outside the member window if and only if the reset count is not 5859436 modulo 5859437, and otherwise reads as position 707 |
| RowDesc.ObRowDesc.GetIdx | src/common/ob_row_desc.cpp:42-55 | never returns a wrong position; returns i when entry i is the column and -1 for absent columns and zero ids, unless an untouched slot reads as that very column |
| RowDesc.ReadyIff | src/lib/hash/ob_array_index_hash_set.h:121-140 | the index of a descriptor is ready after any number of resets but one in every 5859437 |
| RowDesc.FirstProbeReadsOutside | src/lib/hash/ob_array_index_hash_set.h:95-140 | in that state the first probe for a column whose slot is untouched reads position 707, past the 640 columns |
| RowDesc.ObRowDesc.AddColumnDesc | src/common/ob_row_desc.cpp:57-73 | appends, or reports a full or duplicate descriptor and leaves it unchanged; an index that is not ready may refuse a new column but never accepts a duplicate |
| RowDesc.ObRowDesc.Assign | src/common/ob_row_desc.cpp:115-131 | takes over columns and row key count and rebuilds the index, also when assigned to itself; only an index that is not ready can stop it |
| RowDesc.ObRowDesc.Reset | src/common/ob_row_desc.h:124-131 | empties a non-empty descriptor; an empty one is left alone, row key count included |
| RowDesc.ObRowDesc.GetTidCid | src/common/ob_row_desc.h:144-155 | the ids of column idx, or invalid argument outside the list |
| RowDesc.ObRowDesc.Equals | src/common/ob_row_desc.h:172-179 | equality of the column lists, row key count ignored |
| RowDesc.ObRowDesc.GetSerializeSize | src/common/ob_row_desc.cpp:198-217 | the length of the serialized text |
| RowDesc.ObRowDesc.Serialize | src/common/ob_row_desc.cpp:133-163 | succeeds exactly when the declared size fits and writes the text there; otherwise the position is put back |
| RowDesc.ObRowDesc.Deserialize | src/common/ob_row_desc.cpp:165-196 | adds the columns read until the list, the data or the descriptor ends; what was added before a failure stays and the position is put back |
| RowDesc.LoadText | src/common/ob_row_desc.cpp:133-217 | loading a serialized descriptor into an empty one gives equal columns and row key count, with the position advanced by the declared size |
| RowDesc.TextExample | src/common/ob_row_desc.cpp:133-163 | the text of one descriptor, byte by byte |
| RecordHeader.FormatI64 | src/common/ob_record_header.h:26-33 | folds the four 16-bit lanes into the running checksum |
| RecordHeader.FormatI32 | src/common/ob_record_header.h:35-42 | folds the two lanes of a 32-bit field |
| RecordHeader.ObRecordHeaderV2.SetHeaderChecksum | src/common/ob_record_header_v2.cpp:27-40 | afterwards the fold over all covered lanes is zero, so the check passes |
| RecordHeader.ObRecordHeaderV2.CheckHeaderChecksum | src/common/ob_record_header_v2.cpp:42-62 | passes if and only if the fold over all covered lanes is zero |
| RecordHeader.LanesV2Determine | src/common/ob_record_header_v2.cpp:42-56 | the covered lanes determine the whole version 2 header |
| RecordHeader.ExtendKeepsSign | src/common/ob_record_header_v2.cpp:33-36 | the byte fields enter the checksum sign-extended |
| RecordHeader.OneLaneChangeFails | src/common/ob_record_header_v2.cpp:42-62 | a passing header fails after any change confined to one lane |
| RecordHeader.ObRecordHeaderV2.CheckRecord | src/common/ob_record_header_v2.cpp:94-139 | accepts exactly the sound version 2 records and hands out header and payload; for each of the five results, exactly which records get it |
| RecordHeader.FilledV2RecordIsSoundIff | src/common/ob_record_header_v2.cpp:64-139 | a header that describes a payload, with its checksum set, before that payload, possibly empty, is accepted if and only if its version is 2 and its magic number is not negative |
| RecordHeader.SwappedPayloadV2Iff | src/common/ob_record_header_v2.cpp:64-139 | another payload after the header of a sound record is accepted if and only if it agrees in length and CRC |
| RecordHeader.ObRecordHeader.SetHeaderChecksum | src/common/ob_record_header.cpp:25-39 | the same for version 1 |
| RecordHeader.ObRecordHeader.CheckHeaderChecksum | src/common/ob_record_header.cpp:41-60 | passes if and only if the version 1 fold is zero |
| RecordHeader.LanesV1DetermineIff | src/common/ob_record_header.cpp:41-54 | two version 1 headers have the same covered lanes if and only if they agree outside the upper 48 bits of the time stamp |
| RecordHeader.OneLaneChangeFailsV1 | src/common/ob_record_header.cpp:41-60 | a passing version 1 header fails after any change of covered bits confined to one lane |
| RecordHeader.TimestampChangeShowsIff | src/common/ob_record_header.cpp:25-38 | a change of the time stamp shows exactly when its low 16 bits change |
| RecordHeader.TimestampChangeMissed | src/common/ob_record_header.cpp:25-38 | two headers that differ in bit 16 of the time stamp have one checksum |
| RecordHeader.MagicChangeShowsIff | src/common/ob_record_header.cpp:25-38 | a change of the magic number goes unnoticed exactly when every bit is complemented |
| RecordHeader.MagicChangeMissed | src/common/ob_record_header.cpp:25-38 | so do two whose magic numbers are 1 and its complement |
| RecordHeader.ObRecordHeader.Serialize | src/common/ob_record_header.cpp:227-253 | writes the 32-byte text when it fits, otherwise the whole fields that fit |
| RecordHeader.ObRecordHeader.Deserialize | src/common/ob_record_header.cpp:255-281 | reads the whole fields the data holds over the old ones, leaves the position after them, and succeeds exactly when that is all of them |
| RecordHeader.ReadOverText | src/common/ob_record_header.cpp:255-281 | from the first n bytes of a serialized header exactly the fields that end within them are read |
| RecordHeader.WholeFieldsIs | src/common/ob_record_header.cpp:255-281 | the position stops after the last field that the data holds whole |
| RecordHeader.ParseText | src/common/ob_record_header.cpp:227-281 | every field of a serialized header reads back |
| RecordHeader.TextLayout | src/common/ob_record_header.cpp:227-253 | the offset of each field in the serialized header |
| RecordHeader.BigEndian | src/common/ob_record_header.cpp:227-253 | fields are written and read most significant byte first |
| RecordHeader.SignedFields | src/common/ob_record_header.cpp:157-197 | the fields compared with lengths and the header size are signed |
| RecordHeader.TextV2Layout | src/common/ob_record_header_v2.cpp:113-115 | the offset of each field of a version 2 header in memory |
| RecordHeader.LittleEndian | src/common/ob_record_header_v2.cpp:113-115 | fields in memory stand least significant byte first |
| RecordHeader.ObRecordHeader.CheckPayloadChecksum | src/common/ob_record_header.cpp:62-94 | succeeds exactly when the header describes the payload: same length, same CRC, and all data fields zero for an empty one; a wrong length is an argument error, a wrong CRC a checksum error |
| RecordHeader.ObRecordHeader.CheckRecord | src/common/ob_record_header.cpp:157-197 | accepts exactly the sound records and hands out the bytes after the header; each kind of unsound record gets its own error |
| RecordHeader.FilledRecordIsSound | src/common/ob_record_header.cpp:157-197 | a filled header with its checksum set, serialized before a non-empty payload, is accepted with that payload |
| RecordHeader.SwappedPayloadIff | src/common/ob_record_header.cpp:62-197 | another payload after the header of a sound version 1 record is accepted if and only if it agrees in length and CRC |

## Left out

- Float and double casts and comparisons.
- `ObNumber` digits: a number is a rational with a power-of-ten denominator, and reading keeps every digit; bounds have at most 65 digits, below the 72 the original keeps.
- Comparators of strings, JSON, numbers against decimals, enumerations and sets; the wrapper that builds a result object; null-safe comparison of other type classes.
- Memory allocation failure, null buffers other than the escaper's, logging and stack checks.
- Range operations that change fields (reset, set_whole_range, build_row_key) and range serialization; row key infos shorter than the row.
- Negation of the smallest value of a width is undefined for the built-in types in C++; the model wraps, as the hardware and the wide types do.
- Temporal.CmpMomentIsUtcOrder: where a local time minus the offset leaves 64 bits, the subtraction is undefined in C++. Within 2^61 microseconds either way none does (`Temporal.FarInside`).
- ObjOrder.CompareTotalPreorder: decimals of at most 81 digits and scales from 0 to 72; ObjOrder.CompareExactPreorder has no such bounds, and ObjOrder.CmpDecimalIff says that beyond int512, which scales down to -84 or up to 127 can reach, the comparison is not the rational order.
- Range2.EndpointTransitive: like the other laws of ranges but antisymmetry and symmetry, it takes keys of different lengths over one cell array only where their lengths order them like their contents; Rowkey.ShortcutIff says exactly where that is.
- Limbs.Multiply: factors and divisors are native integers of at most 64 bits other than the smallest, whose negation is undefined in C++; products and quotients of two wide integers, and the variants that report overflow, are not modelled. The left operand is a value, so results stored over it are not modelled, and the comparisons of a magnitude with zero and with the divisor are taken as exact.
- ObjCast.IntInt: stored values are within their type, as every setter leaves them; the accuracy reported beside the result is not modelled.
- Row.NewRow.DeepCopy: the source row is a value, so copying a row onto itself is not modelled; the bytes of the cell array and of the projector are kept as typed arrays at recorded positions, not as buffer bytes.
- IndexHashSet.ArrayIndexHashSet.SetIndex: the array has an item at the position, as the original asks of its callers. What lies past the array is one arbitrary value per call. The collision counter is left out.
- RowDesc.ObRowDesc.Assign: two different descriptors do not share their arrays, as the embedded arrays of the original cannot.
- RowDesc.ObRowDesc.Serialize: the position lies within the buffer on entry.
- Vi64.DecodeVi64: an encoding longer than ten bytes shifts past the width, undefined in C++; the model drops those bits.
- RecordHeader.ObRecordHeaderV2.CheckRecord: the header is copied as raw memory, modelled for a little-endian machine. The 64-bit CRC is a parameter for both versions.
- Row checksums: sorting, printing in the buffer format and copying of the list; strtoul is modelled in the C locale.
- The plain `check_record` overloads and `get_record_header`, which are prefixes of the modelled one.
