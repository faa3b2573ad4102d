# Verification model of p2pooler

This project models the arithmetic, parsing and money-handling core of p2pooler in Dafny and
proves what that core is for. It covers five parts of the repository:

- **Big numbers and digit generation** of the vendored fmt library. `Arith`, `Positional` and
  `Convolution` hold the mathematics, `BigInteger` the mutable class with every operation exact,
  `FallbackFormat`, `FormatFixed` and `FormatShortest` the Steele & White printer built on it,
  `Grisu` the fast generator that must know when it cannot round, `TrailingZeros` the division by
  wrap-around multiplication.
- **Format strings.** `FormatString` is the parser with its two scanning paths, `FormatCompile` the
  meaning of a parsed string next to that of its compiled parts, `PartCounter` the counting pass (with
  the parser's loops as they run when errors are passed over),
  `FormatHandlers` the imperative handlers and loops. `FormatRoundTrip` parses back what is written,
  and `FormatMeaning` says what a format string prints in terms of the list of its arguments alone.
  `FormatDecimal` and `WriteFloat` print numbers.
- **`getopt`** in permute mode: `Permute` rotates argument blocks in place, `Getopt` is the scanner
  with its state across calls, `GetoptRoundTrip` scans back what is written on a command line.
- **The money of the pool.** `Splitter` trims shares and splits block rewards, `Payer` batches
  payouts and drives transactions, `Ledger` combines both over every interleaving. `RewardLaws` and
  `SettlementLaws` say what both are for in terms of shares, transfers and answers alone.
- `Rounding`, `Payments`, `Options` and `Sequences` hold what several of these share.

Imperative code is modelled by methods and classes that change their state as the code does;
each is proved equal to, or bounded by, a specification on values, and the properties are proved
of that specification. Integers are unbounded, so every 32-bit and 64-bit operation that can wrap
around says so (`U32`, `U64`), and the proofs show where it does not. Errors that the code throws
are `None`, `Bad` or `Error`; everything outside (the wallet, clocks, Redis replies, the rendering
of one argument) is a parameter.

`dafny verify dfyconfig.toml` checks everything.

## What the code does that its comments do not say

- `fallback_format` sets up a fraction of **twice** the value when the exponent is not negative and
  the predecessor is closer: the denominator is shifted by one where the numerator was shifted by
  two (src/3rdparty/fmt/format-inl.h:2333). The comment at line 2355 of that file is then wrong.
  `FormatFixed.FormatFixed` proves for one digit or more that they are the correctly rounded value
  exactly if that case does not occur, and what they are if it does; without digits a doubled
  decision between zero and one is wrong only for values above a quarter and up to a half.
  `FormatFixed.DoubledExample` is 2^60 in 25 digits. The shortest form is outside the neighbourhood
  of the value in that case, and only then.
- `bigint::subtract_aligned` does not advance its index while it passes a borrow on
  (src/3rdparty/fmt/format-inl.h:1267). `BigInteger.Bigint.SubtractAligned` proves exactly when the
  difference is right and what it is otherwise.
- In the shortest form a decimal exactly on the lower boundary of an even significand is meant to be
  taken, but `compare` reports equal numbers with different exponents as different
  (src/3rdparty/fmt/format-inl.h:1360). `FormatShortest.FormatShortest` proves that such a decimal is
  taken if and only if the numerator starts with no larger exponent than the denominator;
  `FormatShortest.TieExample` is a double for which it is not.
- `bigint::divmod_assign` compares before it aligns, so equal numbers with a larger exponent on the
  left are not divided; `BigInteger.Bigint.DivmodAssign` has the exact condition, and
  `FallbackFormat.NeverEqualAll` shows that the printer never meets it.
- In `getopt`, a word that ends in `-` when `-` is not an option letter and there are no long options
  ends the scan without permuting (src/3rdparty/getopt/getopt.h:555-556). `Getopt.ScanAll` proves that
  the arguments are partitioned exactly if this does not happen behind a skipped non-option;
  `Getopt.DashExample` shows it.
- In a build without assertions the compiled form of a format string prints nothing for an argument
  that is missing (src/3rdparty/fmt/format.h:2168-2171), where the direct form reports an error.
  `FormatCompile.CompiledMeansDirect` proves that this is the only difference, and when it shows.
- A format type `{` makes the counting pass look for another closing brace. `PartCounter.CounterAgrees`
  proves that it then misses a part if and only if anything follows that field.
- A transaction that failed twice, or whose wallet answer holds an empty hash, stays failed for ever,
  and one with a single hash instead of a list stays pending for ever; so the settlement loop need
  not end. `Payer.CanSucceed` proves that from every other state a transaction can still succeed.
- The share trimming is safe one millisecond longer than its constants suggest
  (`Splitter.CleaningIsSafe`).

## Model

| member | source | states |
|---|---|---|
| BigInteger.Accumulator.Add | src/3rdparty/fmt/format-inl.h:1218-1221 | the two-word accumulator adds modulo 2^128, exactly if the sum fits |
| BigInteger.Accumulator.ShiftRight32 | src/3rdparty/fmt/format-inl.h:1222-1227 | shifting divides the 128-bit total by 2^32 |
| BigInteger.Bigint.SubtractBigits | src/3rdparty/fmt/format-inl.h:1247-1251 | one column: new digit minus borrow times 2^32 is the exact difference, and the borrow is at most one |
| BigInteger.Bigint.RemoveLeadingZeros | src/3rdparty/fmt/format-inl.h:1253-1257 | the result is normalised and has the same value |
| BigInteger.Bigint.SubtractAligned | src/3rdparty/fmt/format-inl.h:1260-1269 | the difference is exact if and only if the borrow ends in the column it reaches first; otherwise it is too large by (2^32-1) times a stated power |
| BigInteger.Bigint.BorrowHasEnd | src/3rdparty/fmt/format-inl.h:1264-1267 | with at most one digit more than the subtrahend the borrow always ends there |
| BigInteger.Bigint.Multiply32 | src/3rdparty/fmt/format-inl.h:1271-1280 | multiplication by a 32-bit number is exact |
| BigInteger.Bigint.Multiply64 | src/3rdparty/fmt/format-inl.h:1282-1297 | multiplication by a 64-bit number is exact; the 64-bit carry never wraps around |
| BigInteger.Bigint.AssignWord | src/3rdparty/fmt/format-inl.h:1315-1323 | assigning a 64-bit number gives a normalised number of that value |
| BigInteger.Bigint.ShiftLeft | src/3rdparty/fmt/format-inl.h:1327-1340 | shifting multiplies by the power of two, moving whole words into the exponent |
| BigInteger.Bigint.Compare | src/3rdparty/fmt/format-inl.h:1348-1362 | the sign of the difference; for equal values with different exponents, which of them is longer |
| BigInteger.Bigint.AddCompare | src/3rdparty/fmt/format-inl.h:1365-1386 | the sign of a + b - c for any exponents, although the loop stops as soon as the running difference leaves {0, 1} |
| BigInteger.Bigint.AssignPow10 | src/3rdparty/fmt/format-inl.h:1389-1406 | repeated squaring, multiplying by five and one shift give 10^e |
| Convolution.ColumnsAreProduct | src/3rdparty/fmt/format-inl.h:1408-1432 | the sum of all column sums, each at its place, is the product of the two numbers |
| BigInteger.Bigint.Square | src/3rdparty/fmt/format-inl.h:1408-1436 | column sums with a running 128-bit carry give the exact square |
| BigInteger.Bigint.Align | src/3rdparty/fmt/format-inl.h:1440-1449 | the exponent becomes the smaller one and the value stays; the result is normalised unless it is zero with a larger exponent |
| BigInteger.Bigint.DivmodAssign | src/3rdparty/fmt/format-inl.h:1453-1464 | old = quotient * divisor + rest; the rest is less than the divisor if and only if the operands were not equal with a larger exponent on the left |
| FallbackFormat.SetUp | src/3rdparty/fmt/format-inl.h:2307-2355 | numerator, denominator, lower and upper of all three set-up branches, and that division is exact from there on |
| FallbackFormat.StartFraction | src/3rdparty/fmt/format-inl.h:2317-2354 | the fraction set up is the value in units of 10^exp10, doubled in exactly one case |
| FallbackFormat.NeverEqualAll | src/3rdparty/fmt/format-inl.h:2320-2354 | in the branches where the numerator may have the larger exponent, no scaled numerator ever equals the denominator |
| FallbackFormat.DivideStep | src/3rdparty/fmt/format-inl.h:2363 | a quotient and a rest smaller than the denominator, and the same again for the next digit |
| FallbackFormat.PropagateCarry | src/3rdparty/fmt/format-inl.h:2403-2416 | the carry keeps the value of the digits, or turns all nines into one and raises the exponent |
| FallbackFormat.FixedDigits | src/3rdparty/fmt/format-inl.h:2394-2419 | n digits are the fraction rounded half to even, all nines included |
| FormatFixed.FormatFixed | src/3rdparty/fmt/format-inl.h:2305-2419 | n > 0 digits with the final exponent are the value rounded half to even if and only if the set-up did not double it; the outcome for a doubled set-up; without digits, exactly when a doubled decision is still right |
| FormatFixed.DoubledIsWrong | src/3rdparty/fmt/format-inl.h:2320-2333 | no result of a doubled set-up is the correctly rounded value |
| FormatFixed.DoubledExample | src/3rdparty/fmt/format-inl.h:2320-2333 | 2^60 in 25 digits is 1152921504606846976 and six zeros, its double is not |
| FormatShortest.ShortestDigits | src/3rdparty/fmt/format-inl.h:2356-2385 | the loop ends with an accepted decimal, no shorter one is accepted, and no accepted one of the same length is nearer; on the boundaries the upper one is accepted for an even significand, the lower one if moreover the numerator starts with no larger exponent |
| FormatShortest.DoubledIsOutside | src/3rdparty/fmt/format-inl.h:2320-2333 | what lies within the doubled boundaries lies outside the true ones |
| FormatShortest.NoNine | src/3rdparty/fmt/format-inl.h:2368-2376 | the last digit is never a nine when it is incremented |
| FormatShortest.FormatShortest | src/3rdparty/fmt/format-inl.h:2305-2385 | the printed decimal is admitted by the boundaries of the value, no decimal with fewer digits is, and none with as many that is admitted is nearer to the value; for an odd significand strictly between them is admitted, for an even one on them as well, the lower one if and only if the set-up sees ties; after a doubled set-up this holds of the doubled boundaries, so the result is between the true ones if and only if the set-up did not double |
| FormatShortest.AdmittedIs | src/3rdparty/fmt/format-inl.h:2359-2365 | what is admitted: strictly inside for an odd significand, on or inside for an even one where ties are seen |
| FormatShortest.TieExample | src/3rdparty/fmt/format-inl.h:1348-1362 | a double whose lower boundary is 7168 * 10^22 exactly, although its significand is even nothing with four digits or fewer is taken |
| Grisu.GetRoundDirection | src/3rdparty/fmt/format-inl.h:1473-1487 | down or up exactly if the comparison holds in unbounded integers, although computed without wrap-around |
| Grisu.DirectionIsSafe | src/3rdparty/fmt/format-inl.h:1473-1487 | every remainder within the error rounds in the direction returned |
| Grisu.FixedHandler.OnStart | src/3rdparty/fmt/format-inl.h:1588-1603 | the precision counts from the point; a decision without digits is safe, or refused if and only if the value with its error is in doubt |
| Grisu.FixedHandler.OnDigit | src/3rdparty/fmt/format-inl.h:1605-1633 | the digit is kept and the rounding, with its carry, is safe for every value within the error; it is refused if and only if the error may change the digit, is half a unit, or leaves the rounding in doubt |
| Grisu.GrisuGenDigits | src/3rdparty/fmt/format-inl.h:1500-1578 | a finished result has exactly the digits asked for (one more after a fixed carry) and is within half a unit of every value within the error; a refusal happens only where what remains of the value is in doubt; no 64-bit intermediate overflows |
| Grisu.SafeForAll | src/3rdparty/fmt/format-inl.h:1497-1578 | a safe result is within half a unit of every real number within the error |
| TrailingZeros.InverseTest | src/3rdparty/fmt/format-inl.h:1762-1771 | for any odd divisor with an inverse modulo w: the product with the inverse is small if and only if x is a multiple, and then it is the quotient |
| TrailingZeros.Entry32 | src/3rdparty/fmt/format-inl.h:321-327 | every entry of the 32-bit table is the inverse and the bound of its power of five |
| TrailingZeros.Entry64 | src/3rdparty/fmt/format-inl.h:329-354 | every entry of the 64-bit table is the inverse and the bound of its power of five |
| TrailingZeros.DivisibleWordCorrect | src/3rdparty/fmt/format-inl.h:1762-1766 | the 32-bit test holds if and only if 5^e divides x |
| TrailingZeros.DivisibleCorrect | src/3rdparty/fmt/format-inl.h:1767-1771 | the 64-bit test holds if and only if 5^e divides x |
| TrailingZeros.RemoveTrailingZerosWord | src/3rdparty/fmt/format-inl.h:2003-2028 | the 32-bit number is split into n * 10^s with s at most seven, and below seven n ends in no zero |
| TrailingZeros.RemoveTrailingZeros | src/3rdparty/fmt/format-inl.h:2031-2113 | the 64-bit number is split into n * 10^s with no zero left at the end of n |
| TrailingZeros.StrippedIsMaximal | src/3rdparty/fmt/format-inl.h:2030-2031 | no larger power of ten divides the number |
| FormatDecimal.CountDigits | src/3rdparty/fmt/format.h:924-937 | the loop by fours counts the digits of the shortest decimal |
| FormatDecimal.FastCountCorrect | src/3rdparty/fmt/format.h:898-921 | the table look-up by the highest bit and one comparison count the same, for every 64-bit number |
| FormatDecimal.PrintedIsDecimal | src/3rdparty/fmt/format.h:1041-1065 | what is printed is made of digits, spells the number, and has no leading zero |
| FormatDecimal.WriteDecimal | src/3rdparty/fmt/format.h:1044-1065 | the digits, in pairs from the end, fill exactly their places of the buffer and nothing else |
| FormatDecimal.ReadsBack | src/3rdparty/fmt/format.h:2233-2252 | reading a printed number back gives it, or an error if and only if it exceeds INT_MAX |
| WriteFloat.WriteExponent | src/3rdparty/fmt/format.h:1293-1311 | a sign and at least two digits that read back as the exponent |
| WriteFloat.WriteScaled | src/3rdparty/fmt/format.h:1750-1763 | the exponent layout reads back as significand * 10^exp |
| WriteFloat.WriteInteger | src/3rdparty/fmt/format.h:1765-1783 | the integer layout with zeros reads back as significand * 10^exp |
| WriteFloat.WriteSplit | src/3rdparty/fmt/format.h:1784-1795 | the layout with the point among the digits reads back as significand * 10^exp, with the point at its place |
| WriteFloat.WriteSmall | src/3rdparty/fmt/format.h:1796-1807 | the layout with zeros behind the point reads back as significand * 10^exp |
| WriteFloat.WriteFloat | src/3rdparty/fmt/format.h:1734-1809 | every layout reads back as exactly significand * 10^exp, and with exactly the zeros behind the significand that precision and '#' ask for; the fixed format has no exponent, the exponent format has one, and the general format if and only if the number read back is below 10^-4 or at least 10^precision (10^16 without one), in the case asked for |
| FormatString.ParseNonnegativeInt | src/3rdparty/fmt/format.h:2233-2252 | the loop in 32-bit arithmetic yields the number, or an error if and only if it exceeds INT_MAX |
| FormatString.ParseShort | src/3rdparty/fmt/format.h:2857-2874 | the simple loop yields the reference event stream |
| FormatString.Write | src/3rdparty/fmt/format.h:2875-2890 | the writer of the two-pass path yields the texts of a stretch without opening braces |
| FormatString.ParseLong | src/3rdparty/fmt/format.h:2891-2900 | the two-pass path yields the reference event stream up to empty texts, an error ending it |
| FormatString.ParseFormatString | src/3rdparty/fmt/format.h:2853-2901 | both paths agree, whichever the length selects |
| FormatString.DoubledRoundTrip | src/3rdparty/fmt/format.h:2826-2901 | with every brace doubled, any string parses to texts only, and they spell the string |
| FormatRoundTrip.SpecRoundTrip | src/3rdparty/fmt/format.h:2746-2796 | every specification that can be written is parsed back from what is written, whatever follows |
| FormatRoundTrip.WritableSpecs | src/3rdparty/fmt/format.h:2661-2796 | the specifications that can be written, given by conditions on the type, the fill and the numbers, are exactly those that parsing ever yields |
| FormatRoundTrip.FieldRoundTrip | src/3rdparty/fmt/format.h:2826-2850 | a replacement field with its id and specification is parsed back, in front of anything |
| FormatRoundTrip.FormatStringRoundTrip | src/3rdparty/fmt/format.h:2853-2901 | a format string written from texts, with their braces doubled, and fields parses to exactly these, without an error |
| FormatMeaning.FormattedMeaning | src/3rdparty/fmt/core.h:1913-1930 | every stream prints its texts and fields in order, a field showing the argument at its index or under its name, with specifications whose width and precision are the numbers written or those of the arguments named; automatic ids are 0, 1, 2 and so on as written; mixing them with indexes is an error |
| FormatMeaning.RunMeaning | src/3rdparty/fmt/compile.h:205-269 | running the compiled parts of any stream prints the same from the same list and names, but for missing arguments, which print nothing |
| FormatMeaning.WrittenMeaning | src/3rdparty/fmt/format.h:2918-2969 | the same for any written format string |
| FormatMeaning.PlainFields | src/3rdparty/fmt/core.h:1913-1930 | n plain fields print the first n arguments in order between the texts, and fail with fewer arguments |
| FormatHandlers.ParseContext.Refer | src/3rdparty/fmt/core.h:581-604 | an id resolves to an argument, or mixing the two kinds of numbering is an error |
| FormatHandlers.CheckSpecs | src/3rdparty/fmt/format.h:2387-2432 | setting and checking components one by one yields the specifications in force, or fails, as defined on the whole |
| FormatHandlers.VFormat | src/3rdparty/fmt/format.h:2918-2969 | the handler that formats at once yields the text that the event stream means over the list of arguments, or fails with it |
| FormatHandlers.Compiler.OnField | src/3rdparty/fmt/compile.h:147-182 | one field adds the part that it compiles to, and advances the numbering |
| FormatHandlers.CompileFormat | src/3rdparty/fmt/compile.h:125-192 | the compiler emits the parts that the event stream compiles to |
| FormatHandlers.CompileToParts | src/3rdparty/fmt/compile.h:296-315 | an array of as many elements as were counted (or one) holds exactly the compiled parts, and a write out of bounds is met if and only if a part before the last has a brace as its type |
| FormatHandlers.RunReplacement | src/3rdparty/fmt/compile.h:237-263 | a replacement part is run with its dynamic width and precision and checked afterwards |
| FormatHandlers.RunParts | src/3rdparty/fmt/compile.h:205-269 | the loop over the parts yields their text, or fails: what the stream they were compiled from means over the list of arguments, missing ones printing nothing |
| FormatCompile.FieldAgrees | src/3rdparty/fmt/compile.h:168-182 | one field: compiled and run, it is what it is when formatted at once, checks and dynamic values included |
| FormatCompile.StreamAgrees | src/3rdparty/fmt/compile.h:205-269 | for all streams and arguments: the direct form fails if and only if compiling or running fails or an argument is missing, and else both print the same |
| FormatCompile.CompiledMeansDirect | src/3rdparty/fmt/compile.h:205-269 | both forms agree if and only if every referenced argument is supplied, or a part without its argument is rejected by its dynamic values, sign, alignment or '#', or a part with its argument cannot be formatted |
| FormatCompile.FormsDiffer | src/3rdparty/fmt/compile.h:237-263 | if all parts with arguments can be formatted, the forms differ if and only if some part lacks its argument and none that does is rejected |
| FormatCompile.MissingExample | src/3rdparty/fmt/compile.h:194-201 | without the argument of "{}" the direct form fails and the compiled one prints nothing |
| FormatCompile.NumberingIsUniform | src/3rdparty/fmt/core.h:581-604 | ids can be numbered if and only if automatic and explicit indexes are not mixed; automatic ones count up |
| FormatCompile.CompiledNumbering | src/3rdparty/fmt/compile.h:142-182 | when a stream compiles, for all streams, and to which arguments its fields, widths and precisions then refer |
| PartCounter.SpecsMatchBraces | src/3rdparty/fmt/compile.h:99-113 | matching braces finds the end of a specification unless its type is an opening brace |
| PartCounter.SpecsMissBrace | src/3rdparty/fmt/compile.h:99-113 | with an opening brace as its type another closing brace is looked for behind the field |
| PartCounter.CountParts | src/3rdparty/fmt/compile.h:84-123 | both loops of the parser with the counter as handler, which goes on after errors, count what the reference scan counts |
| PartCounter.InStep | src/3rdparty/fmt/compile.h:84-123 | on every accepted string the counter never counts too much, and as much as there is if and only if a brace-typed field has nothing behind it |
| PartCounter.Astray | src/3rdparty/fmt/compile.h:99-113 | looking for a closing brace at any depth in an accepted string, the counter misses at least one part of what follows |
| PartCounter.CounterAgrees | src/3rdparty/fmt/compile.h:84-123 | for every string that compiles, the parts counted are at most the parts compiled, and exactly these (so that the array is large enough) if and only if no part but the last has a brace as its type |
| PartCounter.BraceTypeExample | src/3rdparty/fmt/compile.h:99-113 | "{:5{}x" compiles to two parts, and one is counted |
| Permute.Gcd | src/3rdparty/getopt/getopt.h:156-169 | the greatest common divisor, as a combination of both numbers |
| Permute.WalkCovers | src/3rdparty/getopt/getopt.h:188-206 | every position of its residue class is reached by a cycle |
| Permute.WalkApart | src/3rdparty/getopt/getopt.h:188-206 | no position is reached twice within a cycle of length n/gcd |
| Permute.PermuteArgs | src/3rdparty/getopt/getopt.h:176-206 | the two blocks change places, each in its old order, and nothing else moves |
| Getopt.Scanner.Next | src/3rdparty/getopt/getopt.h:449-602 | one call yields the next event of the one-pass reference, keeps the three regions, and makes progress; the last one settles the layout |
| Getopt.ScanAll | src/3rdparty/getopt/getopt.h:449-602 | over a whole run: the events of the reference, a permutation of the vector, and options before non-options in their old order if and only if no lone dash ended the scan behind a non-option |
| Getopt.NoDash | src/3rdparty/getopt/getopt.h:547-556 | with '-' among the options, or long options, no scan ends that way |
| Getopt.SkippedAreNonOptions | src/3rdparty/getopt/getopt.h:470-500 | every argument that is moved behind the options is a non-option |
| Getopt.DashExample | src/3rdparty/getopt/getopt.h:555-556 | a run that ends at a dash |
| GetoptRoundTrip.UsesScan | src/3rdparty/getopt/getopt.h:449-602 | grouped flags, attached, separate and optional arguments, long options, unlisted letters and non-options in any order, written as words, are reported exactly as they are meant, and then what follows them |
| GetoptRoundTrip.CommandLineRoundTrip | src/3rdparty/getopt/getopt.h:449-602 | a whole command line: the events and the kinds of words meant, to the end |
| GetoptRoundTrip.DashesEnd | src/3rdparty/getopt/getopt.h:505-522 | behind "--" nothing is an option |
| GetoptRoundTrip.ArgumentMissing | src/3rdparty/getopt/getopt.h:581-597 | a required argument at the end of the vector is reported as missing |
| GetoptRoundTrip.LongArgumentMissing | src/3rdparty/getopt/getopt.h:361-387 | a long option that is last is reported with no argument; where one is required this stands for the missing-argument answer |
| GetoptRoundTrip.DashStops | src/3rdparty/getopt/getopt.h:547-556 | a dash at the end of any group of letters ends the scan there, if it is not listed and there are no long options |
| GetoptRoundTrip.ListedOnce | src/3rdparty/getopt/getopt.h:549-588 | every listed letter takes no, a required or an optional argument, and only one of these |
| Splitter.Pool.RunCleaner | python/aterxdaemon.py:103-136 | every miner keeps the shares from the first younger one on, and miners without shares are dropped |
| Splitter.TrimKeepsValue | python/aterxdaemon.py:121-131 | trimming early enough takes away only shares that do not count for the block, whatever their order |
| Splitter.CleaningIsSafe | python/aterxdaemon.py:121-131 | cleaning changes no allocation of a block, for all shares, if and only if it runs at most 43,236,001 ms after the block |
| Splitter.AllocationSums | python/aterxdaemon.py:217-260 | the rewards never exceed the block, and fall short by less than one unit for each miner with a counting share |
| Splitter.Pool.Allocate | python/aterxdaemon.py:213-250 | the loops yield the proportional allocation and its sum |
| Splitter.Pool.RunRewardSplitter | python/aterxdaemon.py:201-290 | every unlocked block is credited once, stored blocks are left alone, and the over-reward error never happens |
| RewardLaws.RewardIsProportional | python/aterxdaemon.py:217-248 | a miner's reward r satisfies r * S <= D * amount < (r + 1) * S, with D the difficulty of its shares of the six hours before the block and S that of all; without any there is no reward |
| RewardLaws.DueIsReward | python/aterxdaemon.py:217-248 | the same for what a wallet gets that mines under one name |
| RewardLaws.ShortfallIsSmall | python/aterxdaemon.py:240-263 | what is not given away is less than one unit for each miner with a recent share |
| RewardLaws.SplittingShares | python/aterxdaemon.py:223-228 | exchanging a share for two of the same time that add up to its difficulty changes no reward |
| RewardLaws.SharesOutside | python/aterxdaemon.py:224-228 | a share outside the six hours changes no reward |
| RewardLaws.WhatIsKept | python/aterxdaemon.py:118-131 | the cleaner keeps the shares of a miner from the first one on that is at most 64,836,000 ms old |
| RewardLaws.WhoIsKept | python/aterxdaemon.py:103-136 | a miner is dropped if and only if all its shares are older; the others stay in their order |
| RewardLaws.WhichAreStored | python/aterxdaemon.py:201-211 | a height is stored after a run if and only if it was before, or an unlocked block of that height is listed |
| RewardLaws.WhatIsStored | python/aterxdaemon.py:201-283 | a new block is stored with the allocation at a thousand times its timestamp of the first unlocked transfer of its height; stored blocks stay |
| RewardLaws.WhatIsCredited | python/aterxdaemon.py:265-279 | every balance grows by exactly what the newly stored blocks allocate to it |
| Payer.Transaction.SendToWallet | python/payer.py:135-163 | only a queued transaction is sent; it becomes pending with a hash, or failed with one more failure |
| Payer.Transaction.UpdateState | python/payer.py:79-109 | on chain if all transfers are, else as the last failed or pending one says |
| Payer.Transaction.SubtractPayouts | python/payer.py:204-222 | a transaction on chain debits each payment and becomes successful; any other changes nothing |
| Payer.Transaction.Settle | python/payer.py:299-328 | one pass of the settlement loop is one step of the state machine, and debits exactly in the step to success |
| Payer.VisitKeepsSound | python/payer.py:299-328 | every step keeps the invariant and the hash; success is final; a transaction with a hash is not sent |
| Payer.DebitsWhenAllOut | python/payer.py:79-99 | payments are debited if and only if every transfer of a pending list is found on chain |
| Payer.RunIsSafe | python/payer.py:299-328 | over any run: with a hash never sent again, sent at most twice in all, debited once if it ends in success and else never |
| Payer.FailedForGood | python/payer.py:322-328 | a transaction that is failed between two passes stays so |
| Payer.PendingForGood | python/payer.py:79-109 | a transaction with a single hash stays pending |
| Payer.CanSucceed | python/payer.py:299-328 | some run of passes ends in success if and only if the transaction has not failed and does not wait for a single hash |
| SettlementLaws.PendingOutcome | python/payer.py:79-99 | a transaction with a list of transfers succeeds if and only if all are out, fails if and only if some transfer failed and none listed behind it is pending, and else stays pending |
| SettlementLaws.NeverFails | python/payer.py:79-99 | over any run in which no transfer fails, such a transaction does not fail |
| SettlementLaws.SucceedsInTheEnd | python/payer.py:79-99 | if no transfer fails and all are out in the end, it succeeds |
| SettlementLaws.QueuedOutcome | python/payer.py:299-328 | when a queued transaction is sent, and what each answer of the wallet makes of it |
| SettlementLaws.NeverSent | python/payer.py:307-311 | over any run without the funds nothing is sent and nothing changes |
| SettlementLaws.RefusedTwice | python/payer.py:322-328 | a transaction that the wallet refuses is sent exactly twice in any run, and is failed then |
| Payer.MakeBatches | python/payer.py:270-285 | the nested loops build the batches, with none left over |
| Payer.BatchSizes | python/payer.py:271-277 | as many batches as the rounded-up fifteenth part, all but the last full |
| Payer.BatchAt | python/payer.py:278-284 | where each payment of each batch comes from: the front once, then the end |
| Payer.BatchesPartition | python/payer.py:270-285 | the batches together hold every payment exactly once |
| Ledger.ApplyKeepsInv | python/payer.py:299-328 | every step of splitter and payer keeps the books balanced and every outstanding payout covered |
| Ledger.SplitKeepsInv | python/aterxdaemon.py:265-281 | a splitter run moves balances by exactly what the newly stored blocks allocate |
| Ledger.StartKeepsInv | python/payer.py:240-285 | paying out whole balances in batches is covered by the balances |
| Ledger.OrderExists | python/payer.py:240-252 | whatever the balances, the payable wallets have an order in which they can be paid out, each once |
| Ledger.WhatIsPaidOut | python/payer.py:240-285 | starting the payer queues the whole balance of each wallet above 3,000,000,000 that is not integrated, once, and nothing else |
| Ledger.VisitKeepsInv | python/payer.py:299-328 | a visit moves money from a balance to a successful transaction, or not at all |
| Ledger.MoneyIsConserved | python/payer.py:204-222 | after any run: what all blocks allocate to a wallet is its balance and what was paid out to it; no balance is negative or below what is still to be paid |
| Ledger.BlocksAreKept | python/aterxdaemon.py:208-211 | a stored block keeps its allocation in every continuation of a run, so it is credited once |

## Left out

- BigInteger.Bigint.DivmodAssign: requires at most one digit more than the divisor; the code assumes it (its value is below ten times the divisor), and with two digits more and a borrow its loop never ends, as the subtraction then never shortens the number.
- BigInteger.Bigint.AssignPow10: exponents below 2^30, where the bit mask of the loop is still in range.
- BigInteger.Bigint.Square: fewer than 2^31 digits, since the size is an int; the capacity of 32 digits that an assertion of the destructor checks is not modelled.
- FormatFixed.FormatFixed: the decimal exponent is an input with the bound the code states at entry (a scaled value below ten), and not negative for a non-negative binary exponent, where the value is at least one; how the caller estimates it is not modelled.
- FormatShortest.FormatShortest: the upper boundary scaled by the decimal exponent is below ten, as the code assumes at entry; the comparison with the true boundaries is for significands above one, as a closer predecessor has.
- Grisu.GrisuGenDigits: for the exponents from -60 to -32 that the cached powers produce; the table of cached powers and the normalisation are not modelled.
- TrailingZeros.RemoveTrailingZeros: for numbers up to (2^64-1)/1000, as the function is only called on shortened significands.
- WriteFloat.WriteFloat: the sign, padding and width around the number are not modelled; an empty significand has no exponent layout, as the code then reads a digit that is not there.
- FormatHandlers.VFormat: events are collected before they are handled, while the code handles them during the scan; since an error ends both, the outcome is the same.
- Getopt.ScanAll: permute mode with short options; a long option is a step that takes one or two arguments, by a table of names (a value behind '=' is part of the name); an unknown long option, abbreviations, the flags for other modes, POSIXLY_CORRECT, resetting and the printed messages are left out.
- Splitter.Pool.Allocate: exact division instead of a floating-point percentage; the over-reward error is kept, and proved unreachable for exact division only.
- Payer.Transaction.Settle: the loop around it is not modelled as a loop, because it need not end; runs are sequences of passes.
- Payer.MakeBatches: sorting is a parameter, any order of the payable wallets; the exclude and override lists are empty, as they are in the code, and DRY_RUN is off.
- Ledger.MoneyIsConserved: each splitter run and each pass is one atomic step; races inside one read-modify-write of a balance, and a payer that is killed after the wallet accepted a transfer and before the debit, are outside (the books still balance, but the payout is then owed again).
- Dragonbox `to_decimal`, the exact tables of cached powers and the logarithm approximations.
- User-defined formatters, locales, wide characters, digit grouping, padding and every rendering of an argument: one parameter.
- The `constexpr if` templates of compile.h that compile without parts.
- Sockets, TLS, JSON-RPC, Redis, HTTP, file export, logging, pages and process start-up.
