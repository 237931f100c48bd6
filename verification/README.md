# Model of the portable C of uC/LIB and uC/CPU

A Dafny model, with proofs, of the parts of two Micrium libraries in this repository that contain
algorithms and not hardware access. Methods follow the C functions branch by branch; each is proved
against a specification, and the lemmas beside it prove what the specification means. `dafny verify
dfyconfig.toml` checks everything.

## What is modelled

**Numbers as text** (`lib_str.c`). `StrFormat` is the right-to-left formatter `Str_FmtNbr_Int32()` and
its wrappers, `StrParse` the parser `Str_ParseNbr_Int32()` and its wrappers, `StrRoundTrip` the law
that the second undoes the first, with its exact limits, and `StrSearch` the bounded length,
comparison and search functions. `Positional` holds positional notation.

**Random numbers** (`lib_math.c`). `MathRand` is the linear congruential generator; its period of
exactly 2^31, and 2^k for the low k bits, is proved from the constants.

**Time and words** (`cpu_core.c`, `lib_mem.h`). `CpuTimestamp` extends a narrow timer, `CpuIntDis`
measures how long interrupts stay disabled, `CpuCountZeros` counts zeros by decision trees, and
`MemVal` holds the byte-order macros.

`Word`, `Ascii`, `CString`, `Timer`, `Arith` and `Binary` are shared definitions and arithmetic lemmas.

## Conventions

- A pointer is an array and an index, NULL is a null array; a specification takes the array's contents
  as a sequence. `CPU_CHAR` is an octet 0..255: `cpu.h`, which defines it, is not part of this model.
- Integers are unbounded; every wrap at 8, 16, 32 or 64 bits is written with `%`. `CPU_SIZE_T` has 32
  bits.
- Preconditions state what the code reads or the manual demands: strings have a NUL, and where a loop
  looks at a character before it looks at its count, one character past the limit is readable too.
- Optional result pointers are always stored to; passing NULL for one only drops that result.
- A function that runs with interrupts disabled is one atomic step. Timer readings are parameters,
  paired with the true time as a ghost value. Invariants range over the ghost history of all calls.
- `CPU_IntDisMeasMaxCurReset()` has two such steps; the sections run between them are its parameter
  `between`. The timer has any size that `User/cpu_cfg.h` offers: 8, 16, 32 or 64 bits (`Timer`).
- Zero counting is modelled in its C form, and byte order for a little-endian CPU with 32-bit words.

## Where code and documentation differ

The model follows the code.

- The manual forbids every digit of the base but "0" as a lead character (lib_str.c:2012-2013). The
  code looks for digits in one letter case only, so it accepts "a" when it writes upper-case
  hexadecimal. `StrFormat.LeadRuleGap` states the accepted set exactly, `StrRoundTrip.OtherCasePadding`
  gives a call whose result parses as 0xAAAAB, and `StrRoundTrip.RoundTripExact` says for all
  inputs when a formatted number reads back.
- The result note of `Str_ParseNbr_Int32S()` names DEF_INT_32U_MAX_VAL for positive overflow
  (lib_str.c:3038); the code returns DEF_INT_32S_MAX_VAL (lib_str.c:3225-3231).
- `CPU_IntDisMeasMaxCurReset()` is documented to return the maximum before the reset
  (cpu_core.c:697). It reads and clears in two steps: a longer section that ends between them is in
  neither the value returned nor the new maximum. `CpuIntDis.LosesSection` is such a run, and
  `CpuIntDis.Measurement.MaxCurReset` states exactly which sections in between make the value short.
- IEEE Std 1003.1 asks rand() for a period of at least 2^32. As lib_math.h:155-161 concedes, this
  generator cannot have it; its period is exactly 2^31.
- `Str_FmtNbr_Int32S()` negates its argument. For -2^31 that is undefined in C; it is taken to wrap, as
  two's-complement machines do.

## Model

| member | source | states |
|---|---|---|
| `Ascii.ClassesByCode` | uCOS-II/uC-LIB/lib_ascii.h:427-645 | White space, printable characters, hexadecimal digits and letters, by their codes |
| `Ascii.CaseFolding` | uCOS-II/uC-LIB/lib_ascii.h:760 | Two characters fold to the same one if and only if they are equal or one letter in both cases, and folding picks the lower case |
| `Positional.DigitCountUnique` | uCOS-II/uC-LIB/lib_str.c:3544-3552 | A number d is the digit count of n in base b if and only if b^(d-1) <= n < b^d (d = 1 for zero); there is exactly one |
| `Positional.ShiftedDigit` | uCOS-II/uC-LIB/lib_str.c:3598-3612 | Taking remainders and dividing peels off the digits of the number from the right, and the quotient becomes 0 exactly when all significant digits are out |
| `Positional.DigitAt` | uCOS-II/uC-LIB/lib_str.c:3598-3612 | Digit i of the number, from the right, is n / b^i mod b |
| `StrFormat.CountDigits` | uCOS-II/uC-LIB/lib_str.c:3544-3552 | The dividing loop ends with the unique digit count, at most 32 for any base |
| `StrFormat.LeadCharDigExact` | uCOS-II/uC-LIB/lib_str.c:3518-3534 | The test on two wrapped 8-bit differences holds exactly for the characters the formatter could itself write as a digit of the base |
| `StrFormat.LeadRuleGap` | uCOS-II/uC-LIB/lib_str.c:3514-3541 | The accepted lead characters, exactly: none, "0", printable characters that are no digit of the base, and also the digits of the base in the other letter case, which the manual forbids |
| `StrFormat.FormatOkExact` | uCOS-II/uC-LIB/lib_str.c:3506-3581 | A number n is formatted if and only if the base is in 2..36, the lead character accepted and, with the sign taken off the width, n < base^width: an exactly fitting number is |
| `StrFormat.FieldMeans` | uCOS-II/uC-LIB/lib_str.c:3594-3624 | Every character of the field by position: from the right the digits n / b^i mod b as 0-9 and A-Z or a-z, then the lead character everywhere but where "-" goes: leftmost for "0" padding, next to the digits for any other |
| `StrFormat.PrepareFmt` | uCOS-II/uC-LIB/lib_str.c:3498-3581 | A format is rejected if and only if the base is outside 2..36, the lead character is not accepted or the width is below digits plus sign; otherwise the field length and the kind of padding are settled |
| `StrFormat.LayoutFromRight` | uCOS-II/uC-LIB/lib_str.c:3594-3624 | Counted from the right end, the field shows each digit of the number, then lead characters, with "-" leftmost for "0" padding and next to the top digit for any other |
| `StrFormat.FmtChar` | uCOS-II/uC-LIB/lib_str.c:3594-3624 | One turn of the loop always stores a character, and it is the one that belongs at that place of the field; the remaining number and the sign flag stay right for the next turn |
| `StrFormat.WriteField` | uCOS-II/uC-LIB/lib_str.c:3591-3630 | The loop leaves the whole field, valid or question marks, writing every position exactly once from right to left and nothing else |
| `StrFormat.WriteString` | uCOS-II/uC-LIB/lib_str.c:3583-3630 | Terminator and field together leave the memory before and after them as it was, each index stored to once, and on failure exactly the field of "?" with its NUL |
| `StrFormat.FmtNbrInt32` | uCOS-II/uC-LIB/lib_str.c:3472-3637 | For every argument: success if and only if the pointer is not NULL and the format is valid; the memory then holds the field (or exactly the requested number of "?") and the optional NUL, everything else as before, each index stored to once, in descending order |
| `StrFormat.FmtNbrInt32U` | uCOS-II/uC-LIB/lib_str.c:2059-2080 | The same for an unsigned number, with no sign |
| `StrFormat.FmtNbrInt32S` | uCOS-II/uC-LIB/lib_str.c:2276-2307 | The same for a signed number: its mathematical absolute value with "-" when negative, down to -2^31 |
| `StrParse.SplitUnique` | uCOS-II/uC-LIB/lib_str.c:3914-4063 | Every string divides in exactly one way into white space, sign, prefix, longest run of digits below the base, and rest |
| `StrParse.SplitInside` | uCOS-II/uC-LIB/lib_str.c:3914-4063 | All parts end at or before the terminating NUL |
| `StrParse.TableExact` | uCOS-II/uC-LIB/lib_str.c:101-139 | A number is within the table entry of its base if and only if its product with the base fits 32 bits |
| `StrParse.WrapTest` | uCOS-II/uC-LIB/lib_str.c:4034-4039 | After a product that fits, the sum with a digit wraps if and only if it comes out below the digit |
| `StrParse.MergeDigit` | uCOS-II/uC-LIB/lib_str.c:4030-4043 | If number and overflow flag stand for the value v, then after the step they stand for v * base + digit: exact up to 2^32 - 1, flagged above |
| `StrParse.ParseDigits` | uCOS-II/uC-LIB/lib_str.c:4004-4056 | For a run of any length the result is min(value of the run, 2^32 - 1), and overflow is flagged if and only if the value is greater |
| `StrParse.SkipSpace` | uCOS-II/uC-LIB/lib_str.c:3914-3922 | Stops at the first character that is no white space, inside the string |
| `StrParse.SkipSign` | uCOS-II/uC-LIB/lib_str.c:3924-3942 | Passes over "+", and over "-" only for signed numbers; reports "-" in either case |
| `StrParse.SkipPrefix` | uCOS-II/uC-LIB/lib_str.c:3947-4000 | Base 0 becomes 16, 8 or 10 by the first characters; "0x" is passed over only before a hexadecimal digit, a lone "0" in bases 8 and 16 |
| `StrParse.ParseNbrInt32` | uCOS-II/uC-LIB/lib_str.c:3867-4069 | For every string and base: the saturated value of the digit part, the end of the digits or the start of the string if nothing follows the sign, and the sign; 0 and the start for NULL or an illegal base |
| `StrParse.ParseNbrInt32U` | uCOS-II/uC-LIB/lib_str.c:2999-3013 | The unsigned parse is min(mathematical value, 2^32 - 1) with the stopping place |
| `StrParse.ParseNbrInt32S` | uCOS-II/uC-LIB/lib_str.c:3216-3240 | The signed parse is the mathematical signed value clamped to [-2^31, 2^31 - 1], though it works from a saturated magnitude |
| `StrParse.NearestSigned` | uCOS-II/uC-LIB/lib_str.c:3225-3239 | Of all signed 32-bit numbers the result is the nearest to the mathematical value of the text |
| `StrParse.NearestUnsigned` | uCOS-II/uC-LIB/lib_str.c:3924-4056 | Of all unsigned 32-bit numbers the result is the nearest to the value of the text; after a "-" nothing is consumed |
| `StrParse.NothingParsed` | uCOS-II/uC-LIB/lib_str.c:4058-4063 | The original pointer comes back if and only if the character after the sign is no digit of the base |
| `StrParse.InferredBase` | uCOS-II/uC-LIB/lib_str.c:3947-4000 | Base 0 divides the string exactly as the inferred base does, which is 10 if and only if no "0" comes first, 16 if and only if "0x" or "0X" does, and 8 otherwise |
| `StrParse.CaseInsensitive` | uCOS-II/uC-LIB/lib_str.c:4014-4028 | Strings that differ only in the case of letters have the same parts and the same value |
| `StrRoundTrip.NumberBack` | uCOS-II/uC-LIB/lib_str.c:3947-4056 | Zero padding and the digits of n, as text, are read as n in every base, also where the first "0" is taken for a prefix |
| `StrRoundTrip.ReadsNumeral` | uCOS-II/uC-LIB/lib_str.c:3867-4069 | Any white space, sign, prefix and digits of n in either letter case, in bases 2..36 or with base 0 (decimal, "0" octal, "0x" or "0X" hexadecimal), are all consumed and give n with its sign, or the limit of the type it lies beyond |
| `StrRoundTrip.PrefixAlone` | uCOS-II/uC-LIB/lib_str.c:3948-4000 | "0x" or "0X" with no hexadecimal digit after it gives 0 and stops before the x, for base 0 and base 16 |
| `StrRoundTrip.EitherCase` | uCOS-II/uC-LIB/lib_str.c:4014-4028 | The digits of a number in lower and in upper case differ only in case for the parser, and are equal to the comparison that ignores case |
| `StrRoundTrip.RoundTrip` | uCOS-II/uC-LIB/lib_str.c:3472-3637 | Signed and unsigned: every number in range, formatted in any base 2..36, letter case and sufficient width with no lead character, "0" or a space, parses back to itself and stops at the NUL |
| `StrRoundTrip.RoundTripExact` | uCOS-II/uC-LIB/lib_str.c:3514-3636 | For every accepted lead character the exact condition under which parsing restores the number: an if-and-only-if over number, padding, lead character and base |
| `StrRoundTrip.OtherCasePadding` | uCOS-II/uC-LIB/lib_str.c:3518-3534 | A concrete accepted format, 0xAB padded with "a" in upper case, that reads back as 0xAAAAB |
| `StrRoundTrip.RoundTripThroughMemory` | uCOS-II/uC-LIB/lib_str.c:3867-4069 | The memory a successful formatting call leaves holds a string, which parses back to the number under that same exact condition |
| `StrRoundTrip.FailureParsesAsNothing` | uCOS-II/uC-LIB/lib_str.c:3574-3633 | What a failed formatting call leaves parses, in every base, as no number: value 0, nothing consumed |
| `StrSearch.StrLenN` | uCOS-II/uC-LIB/lib_str.c:279-296 | The number of characters before the first NUL, at most the limit; 0 for NULL |
| `StrSearch.StrCmpN` | uCOS-II/uC-LIB/lib_str.c:861-937 | The difference at the first place where the strings differ, within the limit; a NULL string counts as empty |
| `StrSearch.StrCmpIgnoreCaseN` | uCOS-II/uC-LIB/lib_str.c:1138-1222 | Equals the case-sensitive comparison of both strings in lower case |
| `StrSearch.IgnoreCaseZero` | uCOS-II/uC-LIB/lib_str.c:1171-1221 | That is 0 if and only if the strings agree in every character up to letter case, as far as the limit or a common NUL |
| `StrSearch.CmpZero` | uCOS-II/uC-LIB/lib_str.c:890-936 | The comparison is 0 if and only if the strings agree in every character up to the limit or a common NUL |
| `StrSearch.CmpDiffers` | uCOS-II/uC-LIB/lib_str.c:890-936 | Otherwise it is the difference at the first differing place, before which neither string has ended |
| `StrSearch.CmpAntisymmetric` | uCOS-II/uC-LIB/lib_str.c:890-936 | Exchanging the strings negates the result |
| `StrSearch.CmpTransitive` | uCOS-II/uC-LIB/lib_str.c:890-936 | The order is transitive, and strictly so if either step is strict |
| `StrSearch.StrCharN` | uCOS-II/uC-LIB/lib_str.c:1359-1402 | The least index with the character among the first len_max, the terminating NUL counted; NULL if and only if there is none |
| `StrSearch.StrCharLastN` | uCOS-II/uC-LIB/lib_str.c:1540-1579 | The greatest such index, by measuring and scanning back; NULL on exactly the inputs for which the forward search gives NULL |
| `StrSearch.MatchMeans` | uCOS-II/uC-LIB/lib_str.c:1376-1399 | An index matches if and only if it is within the limit, holds the character and has no NUL before it |
| `StrSearch.StrStrN` | uCOS-II/uC-LIB/lib_str.c:1865-1931 | The least index at which the whole search string occurs within the first len_max characters (the start for an empty one); NULL if and only if there is none |
| `StrSearch.FoundMeans` | uCOS-II/uC-LIB/lib_str.c:1892-1930 | An occurrence is one of all characters of the search string before its NUL, inside the limit and before the NUL of the string |
| `MathRand.RandSeed` | uCOS-II/uC-LIB/lib_math.c:274-282 | Every number returned lies in [0, RAND_LCG_PARAM_M] |
| `MathRand.IsDocumentedLcg` | uCOS-II/uC-LIB/lib_math.c:279 | The two wraps at 2^32 make no difference: the result is (1103515245 * seed + 12345) mod 2^31 over the integers |
| `MathRand.Generator.constructor` | uCOS-II/uC-LIB/lib_math.c:146-149 | Math_Init starts from seed 1 |
| `MathRand.Generator.SetSeed` | uCOS-II/uC-LIB/lib_math.c:175-183 | A new seed restarts the sequence from it |
| `MathRand.Generator.Rand` | uCOS-II/uC-LIB/lib_math.c:216-230 | Over every run, the n-th number since the last seed is the n-th iterate of it, and stays the current seed |
| `MathRand.OrbitDistance` | uCOS-II/uC-LIB/lib_math.h:143-161 | Unreduced, the distance covered in n steps is (1 + A + ... + A^(n-1)) * ((A - 1) x + B) |
| `MathRand.GeoFactors` | uCOS-II/uC-LIB/lib_math.h:167-171 | With these constants 2^k divides 1 + A + ... + A^(n-1) if and only if it divides n, for every k and n |
| `MathRand.LowBitsPeriod` | uCOS-II/uC-LIB/lib_math.c:274-282 | From every seed and for every k <= 31, the low k bits return after n calls if and only if 2^k divides n |
| `MathRand.LowBitsOnly` | uCOS-II/uC-LIB/lib_math.c:274-282 | The low k bits of every number depend on the low k bits of the seed only |
| `MathRand.FullPeriod` | uCOS-II/uC-LIB/lib_math.c:216-230 | From every state, n calls lead back to it if and only if 2^31 divides n |
| `MathRand.VisitsAllOnce` | uCOS-II/uC-LIB/lib_math.c:216-230 | From every seed, the first 2^31 calls return every value of [0, RAND_LCG_PARAM_M], each exactly once |
| `Timer.TmrModIsPow2` | uCOS-II/uC-CPU/cpu_core.h:202-211 | A timer of any configured size takes 2^size values |
| `CpuTimestamp.AccumExact` | uCOS-II/uC-CPU/cpu_core.c:453-470 | After any run of updates the accumulator is the true elapsed time less exactly one timer turn for each whole turn between two updates, modulo its width |
| `CpuTimestamp.MissedBound` | uCOS-II/uC-CPU/cpu_core.c:453-470 | No turn is missed if and only if every update comes less than one timer turn after the one before |
| `CpuTimestamp.AccumCongruent` | uCOS-II/uC-CPU/cpu_core.c:453-470 | Timely or not, the accumulator is congruent to the true elapsed time modulo the timer |
| `CpuTimestamp.AccumTimely` | uCOS-II/uC-CPU/cpu_core.c:453-470 | With timely updates it is the true elapsed time modulo its width |
| `CpuTimestamp.AccumRightIff` | uCOS-II/uC-CPU/cpu_core.c:453-470 | Over every run the accumulator is right if and only if the missed turns add up to whole turns of the accumulator; while the elapsed time fits it, if and only if all updates were timely, and it is never ahead |
| `CpuTimestamp.Timestamps.constructor` | uCOS-II/uC-CPU/cpu_core.c:2132-2168 | Both extensions start at 0 from one reading of the timer |
| `CpuTimestamp.Timestamps.Get32` | uCOS-II/uC-CPU/cpu_core.c:449-473 | For a timer below 32 bits the timestamp returned accounts for the whole run so far; a wider timer is read and cut to 32 bits |
| `CpuTimestamp.Timestamps.Get64` | uCOS-II/uC-CPU/cpu_core.c:531-555 | The same for 64 bits |
| `CpuTimestamp.Timestamps.UpdateAll` | uCOS-II/uC-CPU/cpu_core.c:586-597 | Updates each extension that the timer needs, and no other |
| `CpuTimestamp.TrueElapsed` | uCOS-II/uC-CPU/cpu_core.c:449-597 | Over every interleaving of the three calls, both extensions are congruent to the true elapsed time modulo the timer, and equal to it modulo their width if updated in time |
| `CpuIntDis.SectionCompleted` | uCOS-II/uC-CPU/cpu_core.c:1030-1031 | Leaving at nesting 1 completes exactly one outermost section: the one that was open |
| `CpuIntDis.IsMaxUpdate` | uCOS-II/uC-CPU/cpu_core.c:1032-1039 | The greater of an old maximum and the duration just measured is the maximum over the sections now complete |
| `CpuIntDis.IsMaxUnique` | uCOS-II/uC-CPU/cpu_core.c:1032-1039 | The history of enters, exits and clearings alone determines each maximum |
| `CpuIntDis.Measurement.constructor` | uCOS-II/uC-CPU/cpu_core.c:2212-2242 | Measuring starts with both maxima 0 and the overhead learnt from the given empty sections, computed in 32 bits |
| `CpuIntDis.Measurement.TimeEmptySection` | uCOS-II/uC-CPU/cpu_core.c:2231-2236 | One start/stop pair after a clearing leaves the wrapped difference of its two readings as the current maximum |
| `CpuIntDis.Measurement.Start` | uCOS-II/uC-CPU/cpu_core.c:836-843 | Keeps the invariant over every bracketed run: the counter is the number of open sections, and both maxima are those of the history |
| `CpuIntDis.Measurement.Stop` | uCOS-II/uC-CPU/cpu_core.c:1023-1042 | Keeps the same invariant; only leaving the outermost section can change the maxima |
| `CpuIntDis.Measurement.MaxCurGet` | uCOS-II/uC-CPU/cpu_core.c:755-768 | In every reachable state, by how much the longest outermost section since the last clearing exceeds the overhead, 0 if it does not |
| `CpuIntDis.Measurement.MaxGet` | uCOS-II/uC-CPU/cpu_core.c:798-811 | In every reachable state, by how much the longest outermost section of all exceeds the overhead, 0 if it does not |
| `CpuIntDis.Measurement.ClearMaxCur` | uCOS-II/uC-CPU/cpu_core.c:719-722 | Clearing starts the current maximum afresh and leaves the overall one, also inside an open section |
| `CpuIntDis.Measurement.MaxCurReset` | uCOS-II/uC-CPU/cpu_core.c:713-725 | Whatever sections run between the reading and the clearing, the invariant holds; the value returned is the maximum that gets cleared, less the overhead, if and only if no outermost section left in between took longer than the overhead and the maximum at the call |
| `CpuIntDis.LosesSection` | uCOS-II/uC-CPU/cpu_core.c:719-722 | A run in which a section of 5 counts ends between the two steps: 0 is returned, 0 is read afterwards, and the maximum cleared was 5 |
| `CpuIntDis.MaximaAreTrue` | uCOS-II/uC-CPU/cpu_core.c:1023-1042 | With sections shorter than the timer range, the two maxima are the greatest true durations of outermost sections, over the whole run and since the last clearing |
| `CpuIntDis.GettersOrdered` | uCOS-II/uC-CPU/cpu_core.c:2346-2359 | In every reachable state the current maximum is at most the overall one, before and after the overhead correction |
| `CpuIntDis.MaxCalc` | uCOS-II/uC-CPU/cpu_core.c:2346-2359 | The result is by how much the measurement exceeds the overhead, 0 if it does not |
| `CpuIntDis.OverheadIsRoundedAverage` | uCOS-II/uC-CPU/cpu_core.c:2228-2238 | The overhead is within half a count of the average of the empty sections if and only if their sum fits the timer-sized variable, and its word with the rounding added |
| `CpuIntDis.SumAdds` | uCOS-II/uC-CPU/cpu_core.c:2230-2236 | The sum averaged is that of the wrapped differences of the readings, each counted once: it adds up over any division of the timings |
| `CpuIntDis.OverheadBetween` | uCOS-II/uC-CPU/cpu_core.c:2228-2238 | Unless the sum overflows, the overhead lies between the least and the greatest duration timed |
| `CpuIntDis.OverheadOfOne` | uCOS-II/uC-CPU/cpu_core.c:2228-2238 | With a single timing, as configured, the overhead is its duration |
| `CpuIntDis.OneRun` | uCOS-II/uC-CPU/cpu_core.c:836-1042 | However sections nest, a run that is never without an open one counts once, from its first entry to its last exit |
| `CpuCountZeros.TableRight` | uCOS-II/uC-CPU/cpu_core.c:96-114 | The table holds the number of leading zeros of every octet |
| `CpuCountZeros.LeadZeros08Right` | uCOS-II/uC-CPU/cpu_core.c:1210-1234 | n leading zeros: 2^(7-n) <= v < 2^(8-n) for v > 0, and 8 for 0 |
| `CpuCountZeros.LeadZeros16Right` | uCOS-II/uC-CPU/cpu_core.c:1278-1308 | The same for 16 bits |
| `CpuCountZeros.LeadZeros32Right` | uCOS-II/uC-CPU/cpu_core.c:1352-1396 | The same for 32 bits |
| `CpuCountZeros.LeadZeros64Right` | uCOS-II/uC-CPU/cpu_core.c:1440-1512 | The same for 64 bits |
| `CpuCountZeros.LowestBit` | uCOS-II/uC-CPU/cpu_core.c:1952 | For every word width, v & (~v + 1) is 2^k for the greatest k such that 2^k divides v |
| `CpuCountZeros.TrailZeros08Right` | uCOS-II/uC-CPU/cpu_core.c:1722-1750 | The greatest k such that 2^k divides v, and 8 for 0 |
| `CpuCountZeros.TrailZeros16Right` | uCOS-II/uC-CPU/cpu_core.c:1827-1855 | The same for 16 bits |
| `CpuCountZeros.TrailZeros32Right` | uCOS-II/uC-CPU/cpu_core.c:1932-1960 | The same for 32 bits |
| `CpuCountZeros.TrailZeros64Right` | uCOS-II/uC-CPU/cpu_core.c:2037-2065 | The same for 64 bits |
| `CpuCountZeros.WidthsAgree` | uCOS-II/uC-CPU/cpu_core.c:1210-2065 | Counts of leading zeros at neighbouring widths differ by the difference in width, counts of trailing zeros of a non-zero value not at all |
| `CpuCountZeros.LeadZerosAreMissingDigits` | uCOS-II/uC-CPU/cpu_core.c:1210-1512 | At every width a non-zero value has as many leading zeros as binary digits less than the width |
| `CpuCountZeros.TrailZerosAreFactors` | uCOS-II/uC-CPU/cpu_core.c:1722-2065 | At every width the count k for a non-zero value is such that 2^k divides it and 2^(k+1) does not |
| `MemVal.GetsAreValues` | uCOS-II/uC-LIB/lib_mem.h:527-548 | The unrolled decoders read the general big- and little-endian value of the octets |
| `MemVal.SetInt16UBig` | uCOS-II/uC-LIB/lib_mem.h:627-628 | Decoding what was stored gives the value back in the same order and its byte swap in the other; nothing else changes |
| `MemVal.SetInt32UBig` | uCOS-II/uC-LIB/lib_mem.h:630-633 | The same for 32 bits |
| `MemVal.SetInt16ULittle` | uCOS-II/uC-LIB/lib_mem.h:639-640 | The same for little-endian order |
| `MemVal.SetInt32ULittle` | uCOS-II/uC-LIB/lib_mem.h:642-645 | The same for little-endian order and 32 bits |
| `MemVal.SwapIsOtherOrder` | uCOS-II/uC-LIB/lib_mem.h:415-421 | Swapping a value read in one order gives the value read in the other |
| `MemVal.SwapTwice` | uCOS-II/uC-LIB/lib_mem.h:415-421 | The byte swap undoes itself |
| `MemVal.CopyGetInt16UBig` | uCOS-II/uC-LIB/lib_mem.h:772-773 | The destination holds the two source octets reversed; nothing else changes |
| `MemVal.CopyGetInt32UBig` | uCOS-II/uC-LIB/lib_mem.h:775-778 | The destination holds the four source octets reversed; nothing else changes |
| `MemVal.CopyGetIntUBig` | uCOS-II/uC-LIB/lib_mem.h:917-928 | For any number of octets, also 0 where the source index wraps: the destination has in little-endian order the value of the source in big-endian order, and the other way round |
| `MemVal.CopyGetIntULittle` | uCOS-II/uC-LIB/lib_mem.h:931-937 | The destination holds the source octets; nothing else changes |
| `MemVal.LittleOfReverse` | uCOS-II/uC-LIB/lib_mem.h:917-928 | Reading any octets in one order is reading their reverse in the other |
| `MemVal.ReverseTwice` | uCOS-II/uC-LIB/lib_mem.h:917-928 | Copying in big-endian order twice restores the octets |
| `MemVal.CopyThenGet` | uCOS-II/uC-LIB/lib_mem.h:770-778 | For 2 and 4 octets, copying BIG and decoding in the CPU's own order equals decoding BIG |

## Left out

- CpuIntDis.Measurement.MaxCurReset: does not say what CPU_IntDisMeasCtr becomes; each Start counts it up.
- Str_FmtNbr_32(): floating point, and configured out.
- Branches taken when a pointer runs up to address 0: an artefact of C addresses.
- Str_Copy, Str_Cat, Str_Char_Replace and CPU_Name functions: simple copy loops.
- Unbounded forms such as Str_Len() and Str_Cmp(): they call the bounded ones with the greatest limit.
- Mem_ functions and memory pools: their bodies are not in the repository.
- MEM_VAL macros for 8 bits, for LITTLE copies of 2 and 4 octets, for big-endian CPUs and 16-bit words.
- CPU_CntLeadZeros(), CPU_CntTrailZeros() and the assembly forms: they only choose a width.
- CPU_SW_Exception(), timer frequency and error results: no computation.
- Critical-section macros, whose definitions are in cpu.h, not part of this model: steps are atomic.
- A char type that is signed: characters above 127 would compare as negative.
- Drivers, start-up code, the operating system wrappers and CMSIS headers: hardware access.
