# Verified models of the engines below cbaselib

A Dafny model of the hardest code that cbaselib vendors and runs on, with machine-checked proofs of what that code
promises. `dafny verify dfyconfig.toml` checks everything.

**Decimal to binary (`ffc.h`).** Text is scanned eight bytes at a time inside 64-bit words, collected modulo 2^64, turned
into a 64-bit mantissa and a decimal exponent, multiplied with a table of powers of five, and, where that is not enough,
decided by comparing 62-limb big integers. The model follows every step on natural numbers with explicit wrap-around:
`Powers`, `Words` and `Limbs` hold the arithmetic; `BigInts.BigInt` is the in-place big integer; `Ieee` says what a
floating-point number is and what correct rounding means (section 4.3.1 of IEEE 754-2019), independently of the code;
`Rounding`, `DigitComp` and `ComputeFloat` round; `Digits`, `Swar`, `ParseNumber` and `ParseMantissa` read; `Decimals` says
what rounding a decimal means, however it is written; `SlowPath` decides between two neighbours by all digits, for every
supported exponent; `FromChars` joins them: wherever the power table is exact, the text of a number of any length becomes
the nearest number. `ParseInt` is the integer parser for bases 2 to 36.

**The asynchronous Redis context (`async.c`).** `AsyncRedis.AsyncContext` is the re-entrant state machine: flags, two
callback queues, two subscription tables. What user callbacks do is a parameter (any function from the number of the
callback invocation to a list of API calls), and so are the events, replies and I/O results. Ghost histories record which
commands were accepted, whose callbacks ran, and every invocation of a user callback with its reply, in order.

**The hash table (`dict.c`).** `Dict.Dict` has the bucket array and the linked entries on the heap, relinked in place. A
snapshot of the pointers, with the time each entry was linked, ties them to a finite map.

**TOML (`cpptoml.h`).** `TomlText` is the text of keys and values and how the parser reads them back, `TomlTree` the table
that lines build step by step, with redefinitions refused, and `Toml` the writer with its path and its pending line end,
the parser's loop over lines, and the round trip between them. A table is the sequence of its entries in the order of some
iteration over the hash map; `TomlTree.ViewOf` is the table without that order. `TomlMeaning` says
what text means (strings, keys, numbers, arrays) without reading it, and that the parser makes of it what it means.

**HTTP streaming (`httplib.h`).** `Chunked` is the chunked transfer coding (section 7.1 of RFC 9112) from the content
provider to the content receiver, and `Multipart` the body state of the multipart parser (section 5.1.1 of RFC 2046) with
its compacting buffer.

Conventions: machine words are natural numbers with the modulus written out; bytes are numbers below 256; a number d·10^e
is compared with floating-point numbers in units of the smallest subnormal, so that no rounding enters the statements;
`Scale(x, Ten, k)` is x·10^k.

Where the code does less than it seems to, the exact condition is proved: `ParseInt.DecidesExactly` says for which bases
and kinds the overflow test on a wrapped value is right, `AsyncRedis.SubscribeCounts` when the count of pending
subscriptions is exact, `AsyncRedis.AsyncContext.Dispatch` which replies never reach the command they answer (with an
example in `AsyncRedis.ErrorWhileSubscribed`), `Chunked.RoundTrip` which chunk sizes and trailer fields survive the round
trip, `Toml.RoundTrip` which trees do, and `TomlMeaning.ElementStep` what ends an array (with an example in
`TomlMeaning.UnclosedArray`).

## Model

| member | source | states |
|---|---|---|
| `Words.Umul128Generic` | cbaselib/3rd/hiredis/ffc.h:601-610 | the four 32-bit partial products and their carries give the exact 128-bit product of any two 64-bit words |
| `Words.CountLeadingZeroes` | cbaselib/3rd/hiredis/ffc.h:551-565 | the result n is the one shift that brings the top bit of a nonzero word to bit 63: 2^63 <= x·2^n < 2^64 |
| `Words.Hi64Two` | cbaselib/3rd/hiredis/ffc.h:1881-1892 | the 64 bits joined from two limbs and the truncation flag are the exact quotient and the exact nonzero test of the remainder |
| `Limbs.MulSmallValue` | cbaselib/3rd/hiredis/ffc.h:1987-1996 | the carry chain over all limbs multiplies the represented number by the scalar |
| `Limbs.AddFullValue` | cbaselib/3rd/hiredis/ffc.h:2001-2029 | limb-wise addition with a carry flag adds the represented numbers, including the carry that is left over |
| `Limbs.FitsIffSmall` | cbaselib/3rd/hiredis/ffc.h:1754-1764 | a normalized limb vector has at most n limbs exactly when its value is below 2^(64 n) |
| `Limbs.TopLimbDecides` | cbaselib/3rd/hiredis/ffc.h:2207-2224 | between vectors of equal length the highest differing limb decides the order of the values |
| `BigInts.ScalarMul` | cbaselib/3rd/hiredis/ffc.h:1937-1959 | low and high word together are exactly x·y + carry |
| `BigInts.ScalarAdd` | cbaselib/3rd/hiredis/ffc.h:1919-1933 | the wrapped sum and the overflow flag together are the exact sum |
| `BigInts.BigInt.SmallAddFrom` | cbaselib/3rd/hiredis/ffc.h:1964-1977 | adds a limb at an offset; fails exactly when the result needs a 63rd limb |
| `BigInts.BigInt.SmallMul` | cbaselib/3rd/hiredis/ffc.h:1987-1996 | multiplies in place by a limb; fails exactly when the product needs a 63rd limb |
| `BigInts.BigInt.LargeAddFrom` | cbaselib/3rd/hiredis/ffc.h:2001-2029 | adds a limb span at an offset with full carry propagation: the new contents are those of the padded addition |
| `BigInts.BigInt.LongMul` | cbaselib/3rd/hiredis/ffc.h:2039-2073 | grade-school product of two big integers: succeeds exactly when the product fits 62 limbs, is then exact, and is normalized |
| `BigInts.BigInt.LargeMul` | cbaselib/3rd/hiredis/ffc.h:2077-2084 | one-limb and many-limb multiplication both compute the exact product or fail exactly on overflow; an empty multiplier changes nothing |
| `BigInts.BigInt.ShlBits` | cbaselib/3rd/hiredis/ffc.h:2229-2252 | shifting by less than a limb multiplies by 2^n with the carried-out bits in a new limb |
| `BigInts.BigInt.ShlLimbs` | cbaselib/3rd/hiredis/ffc.h:2256-2278 | shifting by whole limbs moves every limb up and fills with zeros; fails exactly when it does not fit |
| `BigInts.BigInt.Shl` | cbaselib/3rd/hiredis/ffc.h:2282-2292 | multiplies by 2^n for every n; for a nonzero number it fails exactly when the result reaches 2^(64·62) |
| `BigInts.BigInt.Pow5` | cbaselib/3rd/hiredis/ffc.h:2329-2359 | the steps of 135 and 27 powers and the final table entry multiply by exactly 5^exp; fails exactly on overflow |
| `BigInts.BigInt.Pow10` | cbaselib/3rd/hiredis/ffc.h:2363-2366 | multiplies by exactly 10^exp; fails exactly on overflow, and for zero exactly when 2^exp shifts by more than 62 limbs |
| `BigInts.BigInt.Compare` | cbaselib/3rd/hiredis/ffc.h:2207-2224 | the sign of the result is the order of the two numbers, in both directions |
| `BigInts.BigInt.BitLength` | cbaselib/3rd/hiredis/ffc.h:2296-2315 | 2^(n-1) <= value < 2^n for the length n of a nonzero number; zero has length 0 |
| `BigInts.BigInt.ExistsNonzeroAfter` | cbaselib/3rd/hiredis/ffc.h:1854-1862 | true exactly when a limb below the given ones is not zero |
| `BigInts.BigInt.Hi64` | cbaselib/3rd/hiredis/ffc.h:2166-2198 | the top 64 bits of the number, and a flag that is set exactly when bits below them are not all zero; zero gives zero |
| `BigInts.BigInt.DropZeros` | cbaselib/3rd/hiredis/ffc.h:1866-1870 | removes exactly the high zero limbs; the value stays |
| `Fives.SmallPowerValue` | cbaselib/3rd/hiredis/ffc.h:2087-2116 | every entry of the table of small powers is the power of five it stands for |
| `Fives.LargePowerValue` | cbaselib/3rd/hiredis/ffc.h:2117-2120 | the five limbs of the large power are exactly 5^135 |
| `Ieee.BasinIsNearest` | cbaselib/3rd/hiredis/ffc.h:2475-2576 | a number is nearest to a value, ties to even and overflow to infinity included, if and only if the value lies between the two midpoints next to it |
| `Ieee.NearestMonotone` | cbaselib/3rd/hiredis/ffc.h:2475-2576 | correct rounding is monotone |
| `Ieee.NearestUnique` | cbaselib/3rd/hiredis/ffc.h:2475-2576 | there is only one correctly rounded result |
| `Rounding.AmToFloat` | cbaselib/3rd/hiredis/ffc.h:901-913 | or-ing mantissa, shifted exponent and sign packs exactly the number meant with its sign, including the mantissa that has just become the hidden bit |
| `Rounding.RoundNearestTieEvenTruncated` | cbaselib/3rd/hiredis/ffc.h:2486-2505 | the shifted mantissa goes up exactly when the dropped part is above half, or half and sticky, or half and odd |
| `Rounding.RoundNearestTieEvenCmp` | cbaselib/3rd/hiredis/ffc.h:2509-2521 | the shifted mantissa goes up exactly as the comparison and its last bit say |
| `Rounding.RoundDownImpl` | cbaselib/3rd/hiredis/ffc.h:2475-2482 | quotient and remainder of the mantissa by 2^shift, with the full-width shift handled |
| `Rounding.RoundFinish` | cbaselib/3rd/hiredis/ffc.h:2527-2540 | a carry out of the mantissa moves to the next binade, the hidden bit is dropped, and a too large exponent becomes infinity |
| `Rounding.RoundDown` | cbaselib/3rd/hiredis/ffc.h:2543-2563 | normal and subnormal numbers are cut to the mantissa width: the result is the packed quotient |
| `Rounding.RoundTieEvenTruncated` | cbaselib/3rd/hiredis/ffc.h:2543-2570 | the same with rounding by dropped bits and sticky flag, across the subnormal boundary and into infinity |
| `Rounding.RoundTieEvenCmp` | cbaselib/3rd/hiredis/ffc.h:2543-2576 | the same with rounding by an already made comparison |
| `DigitComp.RemainderDecides` | cbaselib/3rd/hiredis/ffc.h:2543-2570 | a value given as significand and exact remainder rounds to nearest-even by looking at the remainder alone |
| `DigitComp.StickyRemainder` | cbaselib/3rd/hiredis/ffc.h:2486-2505 | mantissa bits plus one sticky flag decide exactly as the whole remainder would |
| `DigitComp.PositiveDigitComp` | cbaselib/3rd/hiredis/ffc.h:2794-2808 | for every positive big integer D and e >= 0 the result is the nearest-even number of D·10^e, infinity included; it fails exactly when D·10^e does not fit |
| `DigitComp.ToExtendedHalfway` | cbaselib/3rd/hiredis/ffc.h:2418-2472 | significand and exponent of the point halfway to the next number, for normal and subnormal numbers |
| `DigitComp.ComparesWithMidpoint` | cbaselib/3rd/hiredis/ffc.h:2816-2849 | the comparison after cancelling powers of two is the comparison of D/10^k with that midpoint |
| `DigitComp.CompareWithHalfway` | cbaselib/3rd/hiredis/ffc.h:2816-2845 | the big-integer comparison has the sign of D/10^k minus the midpoint; it fails exactly when a side does not fit |
| `DigitComp.NegativeDigitComp` | cbaselib/3rd/hiredis/ffc.h:2816-2849 | if the nearest number is the rounded-down approximation b or the one after it, the nearest number is returned: normal or subnormal, carry into the next binade and infinity included |
| `ComputeFloat.TableValue` | cbaselib/3rd/hiredis/ffc.h:677-679 | the table entries for q = 0..27 are exactly 5^q shifted to the top of the word |
| `ComputeFloat.MulU64` | cbaselib/3rd/hiredis/ffc.h:569-593 | high and low word are exactly the 128-bit product |
| `ComputeFloat.ProductApproximation` | cbaselib/3rd/hiredis/ffc.h:2890-2920 | for q in 0..27 the product is exact |
| `ComputeFloat.TieNeedsSmallPower` | cbaselib/3rd/hiredis/ffc.h:3020-3041 | an exact tie needs 5^q to divide the mantissa |
| `ComputeFloat.KindsCoverTies` | cbaselib/3rd/hiredis/ffc.h:640-656 | 23 for doubles and 10 for floats are large enough: beyond them no tie can occur |
| `ComputeFloat.TieTest` | cbaselib/3rd/hiredis/ffc.h:3020-3041 | the three conditions of the tie test hold exactly at a tie |
| `ComputeFloat.Compute` | cbaselib/3rd/hiredis/ffc.h:2949-3057 | for every 64-bit w the result is the nearest-even number of w·10^q for q in 0..27, below the smallest and above the largest supported power, for both kinds |
| `Swar.WordTest` | cbaselib/3rd/hiredis/ffc.h:1089-1097 | the word-wide test holds if and only if every byte is a digit, although carries and borrows cross byte borders |
| `Swar.IsMadeOfEightDigits` | cbaselib/3rd/hiredis/ffc.h:1089-1092 | true if and only if all eight bytes are digits |
| `Swar.IsMadeOfFourDigits` | cbaselib/3rd/hiredis/ffc.h:1095-1097 | true if and only if all four bytes are digits |
| `Swar.ParseEightDigits` | cbaselib/3rd/hiredis/ffc.h:1071-1086 | the three multiplications give the decimal value of the eight digits |
| `Swar.ParseFourDigits` | cbaselib/3rd/hiredis/ffc.h:1100-1104 | the two multiplications give the decimal value of the four digits |
| `Swar.LoopParseIfEightDigits` | cbaselib/3rd/hiredis/ffc.h:1172-1220 | advances over digits only, accumulates their value modulo 2^64, and leaves at most three digits |
| `Swar.ScanFraction` | cbaselib/3rd/hiredis/ffc.h:1349-1366 | the block scan and the three-step tail stop exactly at the first byte that is no digit, with the byte loop's accumulator |
| `ParseNumber.ExpNumberExact` | cbaselib/3rd/hiredis/ffc.h:1423-1429 | below 2^28 the explicit exponent is the one written, and it saturates exactly from there on |
| `ParseNumber.CountSignificant` | cbaselib/3rd/hiredis/ffc.h:1456-1462 | after the leading zeros at most 19 digits are left if and only if the mantissa is below 10^19 |
| `ParseNumber.Truncate` | cbaselib/3rd/hiredis/ffc.h:1464-1490 | the restart keeps the leading 19 digits: 10^18 <= m < 10^19 and m·10^e <= value < (m + 1)·10^e; the fraction is read only if there is one |
| `ParseNumber.ExponentMeaning` | cbaselib/3rd/hiredis/ffc.h:1391-1441 | if an exponent stands at the end of the mantissa (a marker, a sign, digits), the number ends where its digits end and has its value, or at least 2^28 with its sign; if none does, the number ends before it or is rejected with the position, as the format flags say |
| `ParseNumber.ScanMantissa` | cbaselib/3rd/hiredis/ffc.h:1295-1381 | integer and fraction digits end where the runs end, with the mantissa modulo 2^64 |
| `ParseNumber.LexMeaning` | cbaselib/3rd/hiredis/ffc.h:1267-1441 | a text is accepted if and only if it shows a number: a minus makes it negative, all digits after the one sign, a fraction exactly after a decimal point, enough digits, and the exponent; otherwise the fault and its position are the ones of the code |
| `ParseNumber.Parse` | cbaselib/3rd/hiredis/ffc.h:1259-1497 | accepts exactly the texts that show a number, with the sign, digits, fraction and exponent shown, and the fault otherwise; mantissa·10^exponent is the number written up to 19 significant digits and its leading 19 digits beyond |
| `ParseMantissa.SkipZeros` | cbaselib/3rd/hiredis/ffc.h:2601-2636 | stops at the first byte that is not a zero, eight at a time |
| `ParseMantissa.IsTruncated` | cbaselib/3rd/hiredis/ffc.h:2641-2677 | true if and only if some byte is not a zero |
| `ParseMantissa.ReadPart` | cbaselib/3rd/hiredis/ffc.h:2729-2754 | chunks of up to 19 digits are appended to the big integer until the part or the digit limit is used up |
| `ParseMantissa.Parse` | cbaselib/3rd/hiredis/ffc.h:2711-2791 | the big integer is the mantissa written, or its first max_digits digits followed by a 1 exactly when a dropped digit is not zero; the digit count is exact |
| `SlowPath.ScientificExponent` | cbaselib/3rd/hiredis/ffc.h:2400-2414 | the exponent of the leading digit: 10^k <= mantissa < 10^(k+1) |
| `SlowPath.StickyMid` | cbaselib/3rd/hiredis/ffc.h:2701-2707 | for every number, normal or subnormal, the digits kept with the sticky 1 lie on the same side of its midpoint as all digits do |
| `SlowPath.StickyAgrees` | cbaselib/3rd/hiredis/ffc.h:2701-2707 | so they round to a number if and only if all digits do |
| `SlowPath.KindsLimited` | cbaselib/3rd/hiredis/ffc.h:634-664 | 769 and 114 digits are enough for double and float, since no midpoint has more significant digits, and the big integers have room for every comparison |
| `SlowPath.MidpointFits` | cbaselib/3rd/hiredis/ffc.h:2833-2842 | if the value rounds to b or the number after it, the assertions of the big-integer comparison hold, down to the smallest midpoint |
| `SlowPath.DigitCompare` | cbaselib/3rd/hiredis/ffc.h:2865-2883 | for every number of any length with any supported exponent, if it rounds to the approximation cut down or to the number after it, the slow path finds the one it rounds to, subnormals and infinity included |
| `FromChars.ComputeError` | cbaselib/3rd/hiredis/ffc.h:3062-3080 | cutting the approximation to the mantissa width gives the largest number not above w·10^q |
| `FromChars.TwoCandidates` | cbaselib/3rd/hiredis/ffc.h:2840-2849 | a value that shares 19 digits with w·10^q rounds to that number or to the one after it |
| `FromChars.FloorIsNear` | cbaselib/3rd/hiredis/ffc.h:3062-3081 | the approximation from 19 digits is near enough for that, whatever the digits after them |
| `FromChars.KindsBounded` | cbaselib/3rd/hiredis/ffc.h:2951-2962 | below 10^-342 (10^-64) every 64-bit mantissa is nearest to zero, and from 10^309 (10^39) on to infinity |
| `FromChars.FromCharsAdvanced` | cbaselib/3rd/hiredis/ffc.h:3159-3210 | for parsed exponents 0..27 and beyond the supported powers of ten the result is the nearest-even number of the decimal written, whatever its length, with its sign, and out-of-range is reported exactly for underflow to zero and infinity |
| `FromChars.Convert` | cbaselib/3rd/hiredis/ffc.h:3213-3248 | from text to number: rejected exactly when the text shows no number; otherwise the nearest-even number of the decimal shown, negative exactly after a minus, or the exponent if it is one for which the table is rounded |
| `FromChars.KindsBiased` | cbaselib/3rd/hiredis/ffc.h:634-656 | 1.5 has the biased exponent 1023 as a double and 127 as a float |
| `FromChars.KindsSupported` | cbaselib/3rd/hiredis/ffc.h:634-664 | the constants of both kinds meet every condition the proofs use, the digit limits 769 and 114 included |
| `ParseInt.TablesRight` | cbaselib/3rd/hiredis/ffc.h:726-756 | for every base 2..36 the two tables hold the most digits of a 64-bit number and the least number with that many digits |
| `ParseInt.DecidesExactly` | cbaselib/3rd/hiredis/ffc.h:1643-1652 | for every base and limit, the tests on the wrapped value are decisive if and only if the limit is below the table entry or no number with that many digits reaches 2^64 plus the entry |
| `ParseInt.DecidedKinds` | cbaselib/3rd/hiredis/ffc.h:1643-1667 | so they decide base 10 for every kind but unsigned 64-bit, and bases 2, 4 and 16 for all kinds |
| `ParseInt.UnsignedAlias` | cbaselib/3rd/hiredis/ffc.h:1647-1652 | the 20 digits of 2^64 + 10^19 are read in full and can only be answered with 10^19 for an unsigned 64-bit target |
| `ParseInt.StoredExact` | cbaselib/3rd/hiredis/ffc.h:1669-1687 | the stores through unsigned negation give exactly the signed value, the two's-complement minimum included |
| `ParseInt.ReadRun` | cbaselib/3rd/hiredis/ffc.h:1609-1624 | the longest digit run is read and accumulated modulo 2^64 |
| `ParseInt.AcceptsWhatFits` | cbaselib/3rd/hiredis/ffc.h:1562-1689 | where the tests are decisive, a number is accepted if and only if it fits, and then stored exactly |
| `ParseInt.DigitLetters` | cbaselib/3rd/hiredis/ffc.h:702-722 | the digits are the ten figures and the 26 letters in either case, in their order, and nothing else |
| `ParseInt.ParseIntString` | cbaselib/3rd/hiredis/ffc.h:1562-1689 | a number is read exactly if, after the blanks that are skipped, a sign that the kind has and then digits follow; it is negative exactly if the sign is a minus; in range it is always stored exactly; out of range it is refused unless it aliases |
| `AsyncRedis.SubscribeTracks` | cbaselib/3rd/hiredis/async.c:865-889 | after a SUBSCRIBE every unacknowledged name has an entry that counts at least its unacknowledged subscriptions |
| `AsyncRedis.SubscribeCounts` | cbaselib/3rd/hiredis/async.c:865-889 | the counts stay exact if and only if no new name follows a name with other subscriptions pending |
| `AsyncRedis.CarriedCount` | cbaselib/3rd/hiredis/async.c:865-889 | SUBSCRIBE a b while one SUBSCRIBE a is pending counts two for b |
| `AsyncRedis.SubscribeNames` | cbaselib/3rd/hiredis/async.c:865-889 | the loop over the arguments computes that table |
| `AsyncRedis.UnsubscribeNames` | cbaselib/3rd/hiredis/async.c:901-925 | marks exactly the named entries, and the replies to ignore are the arguments that announce nothing new |
| `AsyncRedis.SubscribeEnters` | cbaselib/3rd/hiredis/async.c:865-889 | the names of a SUBSCRIBE get its callback, and the other entries stay |
| `AsyncRedis.AckCounts` | cbaselib/3rd/hiredis/async.c:503-506 | where the counts are exact, an acknowledgement keeps them exact |
| `AsyncRedis.DropCounts` | cbaselib/3rd/hiredis/async.c:508-512 | where the counts are exact, an unsubscribed name goes away exactly if no subscription to it is unacknowledged |
| `AsyncRedis.AsyncContext.AsyncCommand` | cbaselib/3rd/hiredis/async.c:834-963 | accepted exactly when the context is not closing and an unsubscribe has a subscription; a regular command takes the next place in issue order and the queue of its mode; a subscription is entered in the table of its kind; refusal changes nothing |
| `AsyncRedis.AsyncContext.UserCode` | cbaselib/3rd/hiredis/async.c:307-314 | whatever API calls a callback makes, the invariant holds, nothing runs recursively, and on a closing context nothing changes |
| `AsyncRedis.AsyncContext.RunCallback` | cbaselib/3rd/hiredis/async.c:307-314 | the callback of the command taken off its queue runs once, with the reply or null, and is recorded as run |
| `AsyncRedis.AsyncContext.Drain` | cbaselib/3rd/hiredis/async.c:369-372 | terminates with both queues empty and every accepted command run, in order and with null replies, because nothing new can be accepted |
| `AsyncRedis.AsyncContext.TellSubscribers` | cbaselib/3rd/hiredis/async.c:375-391 | every table entry with a callback gets one null reply, and nothing else is called |
| `AsyncRedis.AsyncContext.FreeContext` | cbaselib/3rd/hiredis/async.c:362-409 | frees once, outside callbacks: null replies to all waiting commands in order, then to every subscription, then the disconnect callback, and every accepted command has run |
| `AsyncRedis.AsyncContext.AsyncFree` | cbaselib/3rd/hiredis/async.c:415-424 | frees at once, or inside a callback only leaves the flag |
| `AsyncRedis.AsyncContext.DisconnectNow` | cbaselib/3rd/hiredis/async.c:427-452 | its assertion that a clean disconnect has no pending callback never fails; frees unless told not to |
| `AsyncRedis.AsyncContext.AsyncDisconnect` | cbaselib/3rd/hiredis/async.c:460-468 | frees at once exactly when outside callbacks with nothing pending, else only sets flags |
| `AsyncRedis.AsyncContext.LeaveSubscribedMode` | cbaselib/3rd/hiredis/async.c:516-532 | subscribed mode ends exactly when nothing is subscribed and no reply to an unsubscription is to come; the waiting commands move without losing or reordering any |
| `AsyncRedis.AsyncContext.PubSubMessage` | cbaselib/3rd/hiredis/async.c:470-537 | a message runs a callback exactly if its name has an entry with one; an acknowledgement counts one subscription less, an unsubscription may drop its entry; for a server that acknowledges only what it was asked to, the assertion that a subscribe reply finds its entry never fails |
| `AsyncRedis.AsyncContext.Dispatch` | cbaselib/3rd/hiredis/async.c:575-656 | a reply answers exactly the oldest unanswered regular command or none, and runs exactly the callback of that command, of the push handler or of its subscription; it answers none exactly if it is a spontaneous push, or if no command from normal mode is waiting and it is an error or taken for a pub/sub message; such an error closes the connection |
| `AsyncRedis.ErrorWhileSubscribed` | cbaselib/3rd/hiredis/async.c:602-624 | a command issued while subscribed whose reply is an error: the reply answers nothing and the connection is closed |
| `AsyncRedis.AsyncContext.ProcessCallbacks` | cbaselib/3rd/hiredis/async.c:570-662 | every reply up to the first that frees the context or fails an assertion is handled, one after the other, and together they are what ran; as long as no more replies than waiting commands arrive, the commands are answered in order; a failure, or a disconnect with nothing left to do, ends the connection |
| `AsyncRedis.AsyncContext.HandleConnect` | cbaselib/3rd/hiredis/async.c:664-707 | success marks the context connected and calls the connect callback, which may close it; failure calls it and disconnects with the error set; in progress changes nothing |
| `AsyncRedis.AsyncContext.HandleRead` | cbaselib/3rd/hiredis/async.c:709-739 | connects if need be and then handles the replies as above, or disconnects after a failed read |
| `AsyncRedis.AsyncContext.HandleWrite` | cbaselib/3rd/hiredis/async.c:741-774 | the output left is what the socket did not take, and nothing else changes; a failed write disconnects |
| `AsyncRedis.AsyncContext.HandleTimeout` | cbaselib/3rd/hiredis/async.c:776-813 | does nothing unless something is overdue; otherwise the waiting commands get null replies in order, and when it comes to its end no callback of normal mode is left and the context is closing with the error set |
| `AsyncRedis.AsyncContext.Step` | cbaselib/3rd/hiredis/async.c:269-963 | each call from outside does what its event asks for |
| `AsyncRedis.AsyncContext.Run` | cbaselib/3rd/hiredis/async.c:269-963 | over every run with arbitrary events and re-entrant callbacks: callbacks run at most once and in issue order, all of them by the time the context is freed, never after it; tables or queued commands imply subscribed mode; no acknowledgement assertion fails for an honest server; a free that is asked for happens |
| `Dict.NextPower` | cbaselib/3rd/hiredis/dict.c:311-321 | the least power of two from 4 on that is not below the size, and LONG_MAX for sizes from there on |
| `Dict.MaskIsRemainder` | cbaselib/3rd/hiredis/dict.c:324-342 | for a power of two, masking the hash is taking its remainder |
| `Dict.ShapeInsert` | cbaselib/3rd/hiredis/dict.c:152-159 | linking an entry in front of its bucket keeps every chain running through exactly its bucket's entries |
| `Dict.ShapeRemove` | cbaselib/3rd/hiredis/dict.c:206-213 | unlinking an entry from its predecessor or its bucket does too |
| `Dict.MoveBuckets` | cbaselib/3rd/hiredis/dict.c:111-132 | every entry is relinked once into its new bucket, the count reaches zero, and the map is the same |
| `Dict.Dict.Find` | cbaselib/3rd/hiredis/dict.c:255-268 | the entry of the key, or null exactly when the key is not in the map |
| `Dict.Dict.ExpandIfNeeded` | cbaselib/3rd/hiredis/dict.c:297-307 | four buckets to begin with and at least twice as many whenever the table is full, so that a free bucket is left; otherwise the table stays |
| `Dict.Dict.Expand` | cbaselib/3rd/hiredis/dict.c:92-138 | a new power-of-two table with the same map; refused exactly when it would be too small or too large |
| `Dict.Dict.Add` | cbaselib/3rd/hiredis/dict.c:141-161 | adds exactly under a new key; with a known key the map stays |
| `Dict.Dict.Replace` | cbaselib/3rd/hiredis/dict.c:165-191 | afterwards the key has the value; tells whether it was new |
| `Dict.Dict.Delete` | cbaselib/3rd/hiredis/dict.c:194-222 | removes exactly the key, and succeeds exactly if it was there; no other entry changes its place in link order |
| `Dict.Iterator.Next` | cbaselib/3rd/hiredis/dict.c:277-295 | hands out one entry that was still to come and leaves exactly the others; null exactly when none is left |
| `Dict.VisitAll` | cbaselib/3rd/hiredis/dict.c:270-295 | every key is visited exactly once and the walk ends, while any chosen part of the entries is deleted as it is handed out |
| `Chunked.FromIToHex` | cbaselib/3rd/cpp-httplib/httplib.h:2621-2629 | the hexadecimal digits, most significant first |
| `Chunked.StrtoulHex` | cbaselib/3rd/cpp-httplib/httplib.h:4342-4347 | a size line reads back as its number, saturating at ULONG_MAX |
| `Chunked.LineReader.Append` | cbaselib/3rd/cpp-httplib/httplib.h:2984-2996 | the line grows by the byte, across the switch from the fixed buffer to the growing one |
| `Chunked.LineReader.GetLine` | cbaselib/3rd/cpp-httplib/httplib.h:2953-2982 | reads exactly up to the first CRLF or the end; false exactly at the end of the input |
| `Chunked.ReadContentWithLength` | cbaselib/3rd/cpp-httplib/httplib.h:4277-4297 | passes on exactly len bytes however the input is cut up; fails exactly when there are fewer |
| `Chunked.ReadTrailer` | cbaselib/3rd/cpp-httplib/httplib.h:4366-4389 | header lines up to an empty line; the input may end only before the first of them |
| `Chunked.ReadContentChunked` | cbaselib/3rd/cpp-httplib/httplib.h:4326-4389 | succeeds exactly on chunked bodies, passes on the concatenation of their data, and stops exactly at their end |
| `Chunked.RoundTrip` | cbaselib/3rd/cpp-httplib/httplib.h:4326-4389 | decoding an encoding, with any trailer fields, gives the concatenated writes and stops at its end, whatever surrounds it, if and only if no write is as large as ULONG_MAX and no field is longer than 8192 bytes |
| `Chunked.DecodeMeaning` | cbaselib/3rd/cpp-httplib/httplib.h:4326-4389 | the decoder accepts exactly the chunked bodies: size lines, data and line ends, a last chunk, and a trailer of short enough fields or none at the end of the input |
| `Chunked.SizeLineText` | cbaselib/3rd/cpp-httplib/httplib.h:4342-4347 | a size line says the number of its leading hexadecimal digits, after blanks, a sign and 0x |
| `Chunked.WriteContentChunked` | cbaselib/3rd/cpp-httplib/httplib.h:4613-4714 | emits one chunk per non-empty write of the calls that are made, which end with the first empty write or done() |
| `Chunked.EmitsEncoding` | cbaselib/3rd/cpp-httplib/httplib.h:4624-4697 | non-empty writes ended by done() emit exactly the encoding |
| `Chunked.Transfer` | cbaselib/3rd/cpp-httplib/httplib.h:4326-4714 | from provider to receiver: the concatenation of the writes arrives and the bytes after the encoding stay unread |
| `Multipart.Buffer.Append` | cbaselib/3rd/cpp-httplib/httplib.h:5097-5115 | compaction in place, growth and copying leave exactly the unread bytes followed by the new ones |
| `Multipart.Buffer.Find` | cbaselib/3rd/cpp-httplib/httplib.h:5074-5095 | the first occurrence in the unread bytes, or their number exactly when there is none |
| `Multipart.Buffer.StartWith` | cbaselib/3rd/cpp-httplib/httplib.h:5055-5062 | true exactly when the bytes at the position are the given ones |
| `Multipart.NotInDelivered` | cbaselib/3rd/cpp-httplib/httplib.h:4991-5001 | retaining as many bytes as the delimiter has is enough: no delimiter can begin in what was already delivered |
| `Multipart.Body.Parse` | cbaselib/3rd/cpp-httplib/httplib.h:4980-5002 | one piece of input keeps the invariant: delivered and retained bytes make up the input, free of delimiters, until the first delimiter splits it; it fails exactly if the callback refuses what it is given |
| `Multipart.SplitInvariant` | cbaselib/3rd/cpp-httplib/httplib.h:4980-5002 | what is delivered depends on the input alone, not on how it was cut into pieces |
| `Multipart.FeedAll` | cbaselib/3rd/cpp-httplib/httplib.h:4980-5002 | for every split of the input the bytes before the first CRLF--boundary are delivered, and what follows the delimiter is in the buffer or not yet fed; it fails if and only if the callback refuses one of its calls |
| `TomlText.EscapeString` | cbaselib/3rd/cpptoml/cpptoml.h:3416-3462 | the loop emits the escape of each character, in order |
| `TomlText.StringReadsBack` | cbaselib/3rd/cpptoml/cpptoml.h:2494-2565 | whatever follows the closing quote, an escaped string reads back as itself, and reading stops after the blanks that follow |
| `TomlText.KeyReadsBack` | cbaselib/3rd/cpptoml/cpptoml.h:2212-2270 | a key reads back as itself, bare or quoted as the writer chooses, up to the next delimiter |
| `TomlText.PathReadsBack` | cbaselib/3rd/cpptoml/cpptoml.h:2178-2210 | keys joined by dots read back as those keys, up to the closing bracket or equals sign |
| `TomlText.NumeralType` | cbaselib/3rd/cpptoml/cpptoml.h:2314-2383 | a written integer is taken for an integer, not for a date, a time or a float |
| `TomlText.NumeralReads` | cbaselib/3rd/cpptoml/cpptoml.h:2657-2810 | every 64-bit integer reads back as itself: sign, no leading zero, no other base |
| `TomlText.ElementsReadBack` | cbaselib/3rd/cpptoml/cpptoml.h:3046-3095 | elements joined by commas read back one by one, for any way of reading one element back |
| `TomlText.ValueReadsBack` | cbaselib/3rd/cpptoml/cpptoml.h:2286-2312 | every string, integer, boolean and homogeneous (possibly nested) array reads back as itself, and reading stops right after its text |
| `TomlMeaning.StringLiteralMeans` | cbaselib/3rd/cpptoml/cpptoml.h:2494-2565 | a string is read as the characters between its quotes, each escape as the character it stands for |
| `TomlMeaning.KeyPathMeans` | cbaselib/3rd/cpptoml/cpptoml.h:2178-2270 | a path is read as its keys between the dots, bare ones without the blanks around them |
| `TomlMeaning.NumberMeans` | cbaselib/3rd/cpptoml/cpptoml.h:2657-2810 | an integer is read as the number that its sign and digits mean, within 64 bits |
| `TomlMeaning.ParsesMeaning` | cbaselib/3rd/cpptoml/cpptoml.h:2286-3095 | whatever value the parser reads, the text up to there means that value: the word true means true, quotes mean their characters, brackets their elements |
| `TomlMeaning.WrittenMeaning` | cbaselib/3rd/cpptoml/cpptoml.h:3375-3516 | what the writer prints for a value means that value |
| `TomlMeaning.UnclosedArray` | cbaselib/3rd/cpptoml/cpptoml.h:3046-3065 | the array [1; is accepted: arrays of numbers, booleans or strings end at any character but a comma |
| `TomlTree.RunBelow` | cbaselib/3rd/cpptoml/cpptoml.h:1946-2134 | lines below a key change only the table at that key, as they would change that table alone |
| `TomlTree.StepFinds` | cbaselib/3rd/cpptoml/cpptoml.h:1946-2176 | key = value puts its value at the path of the current table and the key, where there was none; a header changes no value; an array header hides only the values of the previous element; nothing else changes |
| `TomlTree.RunKeeps` | cbaselib/3rd/cpptoml/cpptoml.h:1893-2176 | a value that was read stays, over any lines, unless a new element of an array it is in begins |
| `TomlTree.PutFails` | cbaselib/3rd/cpptoml/cpptoml.h:2136-2176 | key = value is refused exactly if the key is taken or leads through something that is no table |
| `TomlTree.OpenTableFails` | cbaselib/3rd/cpptoml/cpptoml.h:1946-2033 | a header is refused exactly if a part is empty, its path leads through something that is no table, or the table is there and is empty or holds values |
| `TomlTree.OpenArrayFails` | cbaselib/3rd/cpptoml/cpptoml.h:2035-2134 | an array header is refused exactly if a part is empty, its path leads through something that is no table, or it ends at something that is no table array |
| `TomlTree.LinesRun` | cbaselib/3rd/cpptoml/cpptoml.h:1893-2176 | the lines of a tree, put into a table without its keys, append exactly its entries, and no line is refused as a redefinition |
| `TomlTree.OrderedView` | cbaselib/3rd/cpptoml/cpptoml.h:3327-3370 | writing values before tables changes no table, in any iteration order, if and only if no table array is empty |
| `TomlTree.TreeReadsBack` | cbaselib/3rd/cpptoml/cpptoml.h:1893-2176 | running the lines of a tree gives the tree without its empty table arrays, so the tree itself if and only if there are none |
| `Toml.LineReadsBack` | cbaselib/3rd/cpptoml/cpptoml.h:1899-1918 | every header, table array header and key-value line the writer prints, with any indentation, reads back as itself |
| `Toml.ReadsMeaning` | cbaselib/3rd/cpptoml/cpptoml.h:1899-1918 | whatever line the parser reads, the text means that line: a path in brackets, in double brackets, or a key path, an equals sign and a value |
| `Toml.PrintedMeaning` | cbaselib/3rd/cpptoml/cpptoml.h:3521-3591 | every line the writer prints means the line it stands for |
| `Toml.LineTaken` | cbaselib/3rd/cpptoml/cpptoml.h:1842-1870 | a line is the text up to the first LF, CRLF or end of the text; a lone CR stays in it; nothing is left exactly at the end |
| `Toml.BodyIsLines` | cbaselib/3rd/cpptoml/cpptoml.h:3327-3370 | the headers with full paths that are printed are those of the relative lines, in the same order |
| `Toml.RoundTrip` | cbaselib/3rd/cpptoml/cpptoml.h:1893-1920 | for every tree of tables, table arrays and values, in every iteration order, the parser accepts what the writer emits and builds the same tree, if and only if no table array is empty |
| `Toml.Writer.Endline` | cbaselib/3rd/cpptoml/cpptoml.h:3617-3624 | never ends a line twice |
| `Toml.Writer.WriteTableHeader` | cbaselib/3rd/cpptoml/cpptoml.h:3521-3564 | the header line of the current path, indented by its depth, or nothing at the root |
| `Toml.Writer.VisitArray` | cbaselib/3rd/cpptoml/cpptoml.h:3375-3395 | the elements in brackets, separated by commas |
| `Toml.Writer.VisitTable` | cbaselib/3rd/cpptoml/cpptoml.h:3327-3370 | header, values, tables and table arrays of any tree, each line ended exactly once, the path restored |
| `Toml.Writer.VisitTables` | cbaselib/3rd/cpptoml/cpptoml.h:3400-3411 | one headed table for each element, each line ended exactly once |
| `Toml.ParsedMeaning` | cbaselib/3rd/cpptoml/cpptoml.h:1893-1920 | what parsing builds is what the lines build that the text means, one after the other to its end |
| `Toml.Parse` | cbaselib/3rd/cpptoml/cpptoml.h:1893-1920 | the loop over lines, with the loops over keys, strings and elements below it, builds what the lines of the text mean, and of every written tree the tree with values before tables and without its empty table arrays |
| `Toml.WriteAndParse` | cbaselib/3rd/cpptoml/cpptoml.h:1893-3624 | writer and parser together: the same tree comes back if and only if no table array is empty |

## Left out

- The shortcuts of `ffc_from_chars_advanced` that multiply or divide machine floating-point numbers, the SIMD variants, the
  compiler intrinsics and the 32-bit limb variants: platform behaviour.
- ComputeFloat.Compute: exponents -342..-1 and 28..308 (for float -64..-1 and 28..38), where the table is rounded and its
  sufficiency rests on an external number-theoretic proof.
- ComputeFloat.ProductApproximation: exponents outside 0..27, for the same reason.
- FromChars.ComputeError: exponents outside 0..27, for the same reason.
- FromChars.FromCharsAdvanced: the same exponents as in ComputeFloat.Compute.
- FromChars.Convert: reports such exponents as beyond the table, and does not model the skipping of white space or
  infinities and NaNs as text.
- ParseNumber.Parse: the unrolled first digits of the integer part are one loop, the input is not empty (its callers check
  that), and the decimal point is not itself a digit, as the code takes for granted.
- ParseNumber.CountSignificant: the decimal point is not itself a digit.
- The parsed number is a returned value, not a struct that is filled in step by step; pointers into the text are positions.
- ParseInt.ParseIntString: for the bases and kinds that `ParseInt.DecidesExactly` excludes, the value stored is stated but it
  is not the number written.
- AsyncRedis.AsyncContext.AsyncCommand: does not model MONITOR.
- MONITOR, which runs the same callback repeatedly, and exact values of `pending_unsubs`, which the code does not keep.
- AsyncRedis.AsyncContext.HandleTimeout: follows its loop for a given number of callbacks only, because callbacks that keep
  issuing commands keep it running.
- Allocation failure; a failing read, write or connection attempt sets the error flag.
- AsyncRedis.AsyncContext.Dispatch: replies are given by the form and the first three elements that the code looks at, of
  the types its assertions demand; the debug assertion that a non-error reply with nothing pending comes in subscribed mode
  is the test that follows it in the code. The linked callback lists are sequences.
- Dict.Dict.Expand: sizes from LONG_MAX on count as a failed allocation. `_dictClear` and `dictRelease`, which only free
  memory, and the key and value destructors are not modelled.
- Chunked.WriteContentChunked: the stream takes everything, there is no compressor and no trailer fields, and running out of
  provider calls stands for shutting down. The receiver accepts all content; trailer lines are read but not stored.
- Chunked.ReadContentChunked: does not model receivers that refuse and reads that fail.
- Chunked.ReadContentWithLength: does not model receivers that refuse and reads that fail.
- Chunked.LineReader.GetLine: does not model reads that fail.
- Chunked.ReadTrailer: does not store the fields.
- TOML floats, dates, times, unicode escapes, numbers in other bases, inline tables, strings and arrays that span
  lines are failures in the model of the parser.
- Toml.RoundTrip: keys are not empty, for which the writer prints nothing, and strings have no control characters besides
  \b \t \n \f \r, for which it prints escape codes that the parser refuses.
- Toml.Parse: a key is read as a whole before tables are created for its parts, the current table is a path instead of a
  pointer, tables are values instead of shared nodes, and inline table arrays do not occur.
- Multipart.Body.Parse: the answers of the content callback are a parameter.
- The other states of the multipart parser: the initial boundary state discards a partial boundary, and the header state
  rests on regular expressions.
- Which thread may close the socket of the HTTP client: a protocol separate from the streaming that is modelled.
- The rest of httplib (sockets, TLS, compression, routing), base64, query strings and ranges: not needed for these
  properties or easy.
