# Verified models of Yetty's number, sorting, text and container code

The project models the algorithmic core of Yetty's QuickJS support code and of the container headers it
bundles, and proves what that code is for.

* **Numbers** (`src/quickjs/dtoa.c`). Arithmetic on 32-bit limbs, division by a precomputed reciprocal, a bignum
  of fixed capacity, scaling by powers of the radix with a sticky bit, rounding to a float64, printing in every
  radix and format, and parsing. No floating point appears in the proofs: a float64 is a bit pattern whose
  magnitude counts units of 2^-1074, and a real number stands for what a bignum means. The main results are that
  `mul_pow_round` is exact in every rounding mode, that `js_atod` returns the float64 nearest to the digits it
  keeps, that every format of `js_dtoa` prints exactly the digits it should in the notation it should, that `js_atod`
  accepts exactly the texts of a grammar, and that it reads the free format back unchanged.
* **Sorting** (`src/quickjs/cutils.h`). `rqsort` with its fat-pivot partition, its 50-entry stack and its two
  fallbacks permutes any array under any comparison callback and sorts it by any total preorder. The bottom-up merge
  sort of `uthash.h` and `utlist.h` is proved once, on sequences, to be stable, and again on links in the four list
  forms.
* **Text** (`src/quickjs/cutils.h`, `include/ut/utstring.h`). The UTF-8 codec with surrogates, its truncating buffer
  encoders, the scan that predicts the decoders, and substring search in both directions with the optimised
  failure table and its linear bound on comparisons.
* **Hash table** (`include/ut/uthash.h`). Items are threaded on bucket chains and on an application-order list. Adding,
  adding in order, finding, deleting, sorting and bucket expansion, with every allocation allowed to fail, refine a
  map and an ordered list.
* **Zip helpers** (`src/quickjs/builtin-iterator-zip.js`, `src/quickjs/builtin-iterator-zip-keyed.js`). The set-up of
  the iterators and the state machine behind `next` and `return`, over streams that may be finite, endless or
  failing: which slot decides a row, what the call gives, how each iterator ends, and how many rows a run has.

Each module stands for one part of one source file. Loops and in-place updates are methods on arrays or on
classes (`Bignum.Mpb`, `HashTable.Table`, `Zip.Zipper`); what they compute is stated by functions and predicates
about which the lemmas reason. Machine words are integers with their wrap-around written out, `|` of words that
share no bit is `+`, shifts and masks are division and remainder. Links are indices of items, NULL is -1. Allocation
failures, callbacks, hash functions, iterators and property getters are parameters.

Where the code and what is said about it differ, the model follows the code, and the difference is a result:

* `js_atod` drops digits beyond a limit in radices that are not powers of two, so it is not always nearest: on a
  39-digit text it is one unit off (`AtodLimit.DroppedDigitShows`). It rounds the very number written exactly when
  every dropped digit is zero (`AtodLimit.AllDigitsCount`), and its result is nearest exactly when no halfway point
  of neighbouring float64 separates the number from what is left of it (`AtodLimit.NearestToWritten`).
* "NaN" as printed reads back as not-a-number only up to radix 23 (`RoundTrip.NaNReads`).
* `zip` leaves an iterator open when reading that iterator's `next` property fails, and only then
  (`ZipSetup.FailedZip`); `zipKeyed` closes it (`ZipSetup.FilterKeys`).
* A failed `next` of the zip helper, or a failed `return` after a first row, leaves the helper in its running state
  for good (`Zip.Zipper.Next`, `Zip.Zipper.Return`).
* `mp_div1norm` shifts into its destination and then reads its source. In place, as its caller has it, it is right
  (`Reciprocal.MpDiv1Norm`); with two arrays it is right exactly under the condition of `Reciprocal.OutOfPlace`, which
  1 divided by 3 does not meet (`Reciprocal.OutOfPlaceFails`).

`dafny verify dfyconfig.toml` checks everything.

## Model

| member | source | states |
|---|---|---|
| Limbs.MpAddUi | src/quickjs/dtoa.c:74-89 | adding a limb with carry: old value plus b is the new value plus the returned carry beyond n limbs |
| Limbs.MpMul1 | src/quickjs/dtoa.c:92-103 | the number times b plus l, with the high limb returned, limbs beyond n untouched |
| Limbs.MpShl | src/quickjs/dtoa.c:166-179 | left shift into the same or another array is multiplication by 2^shift, the bits shifted out are returned and are below 2^shift |
| Limbs.MpShr | src/quickjs/dtoa.c:149-163 | right shift with an incoming high part is division by 2^shift with the remainder returned |
| Limbs.MpDiv1 | src/quickjs/dtoa.c:135-146 | long division of an n-limb number with high limb r by a limb: exact quotient in place, exact remainder |
| Reciprocal.Udiv1NormInit | src/quickjs/dtoa.c:106-113 | the reciprocal is the largest limb with (inv + 2^32) * d < 2^64 |
| Reciprocal.EstimateIsClose | src/quickjs/dtoa.c:116-126 | the estimated quotient is the true one or one less, in spite of the wrap-around in its computation |
| Reciprocal.Udiv1NormExact | src/quickjs/dtoa.c:116-133 | for every normalised d and a1 < d the wrapping code returns exactly the quotient and remainder of a1 * 2^32 + a0 by d |
| Reciprocal.MpDiv1Norm | src/quickjs/dtoa.c:181-194 | in place, division of an n-limb number with a high limb is exact, including the un-normalised remainder; with two arrays it divides the shifted high part followed by the unshifted source |
| Reciprocal.OutOfPlace | src/quickjs/dtoa.c:181-194 | with two arrays, quotient and remainder are right iff a * 2^shift mod 2^(32 n) <= a < a * 2^shift mod 2^(32 n) + 2^shift for the source a |
| Reciprocal.OutOfPlaceFails | src/quickjs/dtoa.c:186-191 | dividing 1 by 3 from one array into another gives quotient and remainder 0 |
| Rounding.RoundIsNearest | src/quickjs/dtoa.c:294-298 | the three rounding modes mean nearest with ties to even, nearest with ties away from zero, and truncation |
| Rounding.RoundQuotientIsRound | src/quickjs/dtoa.c:314-406 | rounding a truncated value together with the fact whether anything was dropped is rounding the real quotient |
| Rounding.StickyRounds | src/quickjs/dtoa.c:931-959 | a truncated value with a sticky low bit rounds like the exact real number once at least two bits are shifted out, in every mode |
| Arith.NestedDivision | src/quickjs/dtoa.c:947-957 | a chain of truncated divisions is one division by the product, exact iff every remainder is zero |
| Bignum.Mpb.Renorm | src/quickjs/dtoa.c:210-215 | dropping leading zero limbs keeps the value and gives the normal form |
| Bignum.Mpb.GetBit | src/quickjs/dtoa.c:300-311 | bit k of the limbs is bit k of the number, 0 beyond the end |
| Bignum.RoundFromBits | src/quickjs/dtoa.c:319-360 | the increment decided from bit k, the bits below it and bit k + 1 is correct rounding by 2^(k + 1) in each mode |
| Bignum.Mpb.RoundingIncrement | src/quickjs/dtoa.c:340-372 | the decision taken before the shift, on limbs, is the increment of the rounded quotient |
| Bignum.Mpb.ShrRound | src/quickjs/dtoa.c:314-406 | the bignum becomes round(value / 2^shift) in the given mode, and value * 2^-shift for a negative shift, given room for the scratch limb |
| Bignum.Mpb.Cmp | src/quickjs/dtoa.c:409-426 | the sign returned is the order of the two numbers |
| Bignum.Mpb.SetU64 | src/quickjs/dtoa.c:429-442 | a 64-bit word becomes a normal bignum of that value |
| Bignum.Mpb.GetU64 | src/quickjs/dtoa.c:445-456 | the number modulo 2^64, so a bignum below 2^64 is returned exactly |
| Bignum.Mpb.FloorLog2 | src/quickjs/dtoa.c:459-470 | the position of the highest set bit, -1 for zero |
| RadixLog.TableSeparated | src/quickjs/dtoa.c:473-479 | each fixed-point entry lies between neighbouring fractions whose denominators sum to more than 2048 |
| RadixLog.MulLog2RadixIsFloor | src/quickjs/dtoa.c:480-496 | for all -2048 <= a <= 2047 and radices 2 to 36 the result k satisfies radix^k <= 2^a < radix^(k + 1) |
| RadixLog.DigitTables | src/quickjs/dtoa.c:715-746 | the digit tables hold what their comments promise: a limb's digits fit, the printed digits always suffice, the kept digits fit 128 bits |
| RadixLog.DigitTablesTight | src/quickjs/dtoa.c:733-746 | the digits to print are the fewest that always suffice, the digits to keep the most that fit 128 bits, or 64 bits in a power-of-two radix |
| RadixLog.ExponentTables | src/quickjs/dtoa.c:748-759 | from radix^max_exponent on a number overflows, up to radix^min_exponent it is at most half the smallest subnormal |
| Powers.Pow5TableIsExact | src/quickjs/dtoa.c:218-229 | the low and high words of the table are the powers of five |
| Powers.PowUi | src/quickjs/dtoa.c:238-269 | table branch and square-and-multiply branch give a^b, no intermediate square wrapping when a^b fits 64 bits |
| Powers.Pow5InvTableIsExact | src/quickjs/dtoa.c:231-234 | the 13 stored reciprocals are those udiv1norm_init computes for the normalised powers of five |
| Powers.PowUiInv | src/quickjs/dtoa.c:271-292 | the result is a^b shifted up to its normal form, with that shift and the reciprocal of the shifted power |
| Scaling.MulPowUp | src/quickjs/dtoa.c:907-923 | the multiplication branch gives value * radix1^f exactly, limb by limb, if the product fits |
| Scaling.DivPow | src/quickjs/dtoa.c:942-957 | the division loop leaves value / radix1^f and a flag that is set iff the division is not exact |
| Scaling.LimbBoundSuffices | src/quickjs/dtoa.c:928-930 | radix1^f has at most as many limbs as the code's bound |
| Scaling.MulPow | src/quickjs/dtoa.c:900-963 | value * radix^f * 2^eOffset exactly, or its truncation with a sticky bit and enough bits left for the later rounding |
| Scaling.MulPowRound | src/quickjs/dtoa.c:966-974 | the bignum becomes exactly round(m * 2^e * radix^f) in every rounding mode |
| Float64.UnitsMono | src/quickjs/dtoa.c:1630-1638 | sign-less bit patterns are ordered like the magnitudes they stand for |
| Float64.NearestUnique | src/quickjs/dtoa.c:976-1008 | there is only one nearest float64 with ties to the even pattern |
| Float64.NearestByRounding | src/quickjs/dtoa.c:976-1008 | rounding on the grid that belongs to a number's size gives the nearest float64 overall |
| Float64.NearestOverflow | src/quickjs/dtoa.c:1626-1629 | from 2^1024 on the nearest float64 is infinity |
| Float64.NearestUnderflow | src/quickjs/dtoa.c:1623-1625 | up to half the smallest subnormal the nearest float64 is zero |
| ToFloat64.PackedIsNearest | src/quickjs/dtoa.c:986-1005 | the normalised rounded mantissa, packed as js_atod packs it, is the nearest float64: normal, subnormal and mantissa-overflow cases |
| ToFloat64.RoundToD | src/quickjs/dtoa.c:977-1008 | for a bignum that is x * 2^k or its sticky truncation, (m, e) is the float64 nearest to x |
| ReadBack.QuarterStep | src/quickjs/dtoa.c:1196-1203 | any number within a quarter grid step of a float64 has it as its nearest, also just below a power of two |
| FreeDigits.FirstMantissa | src/quickjs/dtoa.c:1189-1191 | at the first exponent the rounded mantissa has P digits or at most one more, as the comment says |
| FreeDigits.SecondMantissa | src/quickjs/dtoa.c:1209-1217 | after raising the exponent once the mantissa has exactly P digits, so at most one iteration is possible |
| FreeDigits.MaxDigitsReadBack | src/quickjs/dtoa.c:1196-1226 | the first precision, which the code accepts unchecked, always reads back, ties and raised exponents included |
| Capacity.RoundingRoom | src/quickjs/dtoa.c:63-64 | no bignum of mul_pow_round outgrows 52 limbs, scratch limb included, whenever up to 101 digits of a finite float64 are wanted |
| Capacity.BackRoom | src/quickjs/dtoa.c:1228-1229 | the same for converting the tried digits back |
| DtoaFree.MulPowRoundToD | src/quickjs/dtoa.c:1013-1020 | (m, e) is the float64 nearest to a * radix^f |
| DtoaFree.TryDigits | src/quickjs/dtoa.c:1204-1217 | one precision yields the float64 correctly rounded to P digits and its exponent |
| DtoaFree.StripZeros | src/quickjs/dtoa.c:1218-1222 | dropping trailing zero digits keeps the number and its leading digit, and leaves the correct rounding to the digits that remain |
| DtoaFree.ConvertsBack | src/quickjs/dtoa.c:1227-1233 | the comparison is true iff the digits read back as (m, e) |
| DtoaFree.PackInjective | src/quickjs/dtoa.c:1231-1233 | equal patterns mean equal (m, e), so comparing pairs is comparing float64 |
| DtoaFree.FindDigits | src/quickjs/dtoa.c:1193-1248 | the search ends with (m, e) correctly rounded to some number of digits, without a trailing zero, that reads back as exactly (m, e); either it has one digit or the correct rounding to one digit less does not read back |
| CorrectRounding.RoundedIsRounding | src/quickjs/dtoa.c:1186-1217 | the digits found at the first exponent, or after raising it once, are d correctly rounded to P digits, as told from the leading digit of d alone |
| Notation.Alphabet | src/quickjs/dtoa.c:1335-1346 | the digits are 0 to 9 and a to z in this order; capital letters are read, small ones printed |
| Digits.DigitStringValue | src/quickjs/dtoa.c:853-896 | n printed digits denote the number modulo radix^n |
| Digits.LimbToA | src/quickjs/dtoa.c:570-597 | the buffer gets the len lowest digits, nothing else in it changes |
| Digits.RadixBaseIsPower | src/quickjs/dtoa.c:725-731 | the stored bases are radix^digits_per_limb |
| Digits.OutputDigits | src/quickjs/dtoa.c:855-896 | the nDigits1 lowest digits of the bignum, with the dot at its place unless that is the end |
| IntText.CanonicalValue | src/quickjs/dtoa.c:600-701 | reading the shortest digit string gives the number back |
| IntText.U32ToA | src/quickjs/dtoa.c:600-613 | the decimal text without leading zeros |
| IntText.U64ToA | src/quickjs/dtoa.c:626-655 | the same for 64 bits, assembled from groups of nine digits |
| IntText.U64ToARadix | src/quickjs/dtoa.c:668-702 | the same in any radix; the power-of-two branch computes its length from the bit length |
| DtoaFormats.DecodeIsInverse | src/quickjs/dtoa.c:1129-1176 | taking a pattern apart, subnormals normalised, is inverse to packing |
| DtoaFormats.FixedDigits | src/quickjs/dtoa.c:1271-1289 | the bignum is d rounded to P digits with ties away from zero, the exponent raised at most once, in 52 and 18 limbs |
| DtoaFormats.FracDigits | src/quickjs/dtoa.c:1254-1270 | the text is that of d * radix^n rounded, with n digits behind the dot and no redundant leading zero; what it denotes is Notation.FractionText |
| Dtoa.Output | src/quickjs/dtoa.c:1290-1327 | the text is the layout of the digits: exponential, small, or with a dot and zeros |
| Dtoa.JsDtoa | src/quickjs/dtoa.c:1115-1333 | for every 64-bit pattern, radix, format and exponent mode the text is what the format asks for, infinities, NaN, zeros and small integers included; what that means is stated by the rows of Notation and RoundTrip |
| AtodDigits.SkipZeros | src/quickjs/dtoa.c:1458-1478 | the first loop reads exactly the leading zeros on both sides of the dot |
| AtodDigits.Mul1Base | src/quickjs/dtoa.c:1349-1366 | the bignum becomes value * base + l, where base 0 stands for 2^32 |
| AtodDigits.ReadDigits | src/quickjs/dtoa.c:1481-1517 | the second loop reads the digits of the numeral, keeps the first ones as a number and notes whether a dropped one was non-zero |
| AtodValue.StickyDigits | src/quickjs/dtoa.c:1530-1534 | in a power-of-two radix the dropped digits together are an exact sticky bit |
| AtodValue.FromBinary | src/quickjs/dtoa.c:1601-1612 | the power-of-two branch gives the nearest float64, its early overflow and underflow exits included |
| AtodValue.FromRadix | src/quickjs/dtoa.c:1613-1640 | so does the other branch, and 52 limbs suffice |
| Atod.HugeExponent | src/quickjs/dtoa.c:1582-1590 | an exponent that saturates the parser gives infinity or zero also by the exact value |
| Atod.ReadExponent | src/quickjs/dtoa.c:1536-1591 | the exponent part is read as the grammar says, or rejected at the same place |
| Atod.ConvertDigits | src/quickjs/dtoa.c:1519-1640 | the kept digits, offsets and exponent convert to the float64 nearest to the numeral |
| Atod.JsAtod | src/quickjs/dtoa.c:1369-1653 | the result is the float64 nearest to the numeral at the start of the text, with its sign, or NaN where the grammar fails, and the end position is that of the numeral |
| AtodLimit.AllDigitsCount | src/quickjs/dtoa.c:1491-1517 | the number rounded is the number written iff every dropped digit is zero; so in power-of-two radices and up to the limit of significant digits |
| Halfway.NearestKept | src/quickjs/dtoa.c:1530-1531 | the float64 nearest to x is nearest to a larger y iff no halfway point of neighbouring float64 separates them, a tie going to the even neighbour |
| AtodLimit.NearestToWritten | src/quickjs/dtoa.c:1369-1653 | the float64 that js_atod returns is nearest to the number written iff no halfway point separates that number from the one without its dropped digits |
| AtodLimit.DroppedDigitShows | src/quickjs/dtoa.c:1369-1653 | the text "9007199254740993.00000000000000000000001" is read completely in radix 10 and converted to the float64 below the one nearest to it |
| RoundTrip.ReadText | src/quickjs/dtoa.c:1384-1595 | every text of the printed shape is read completely and as the digits, fraction and exponent it shows |
| Reading.ReadLiteral | src/quickjs/dtoa.c:1384-1595 | every text of the grammar, whatever follows it, is read to its end with its meaning: signs, prefixes, old octal numbers, separators, a dot with digits on either side, and exponents |
| Reading.ReadInfinity | src/quickjs/dtoa.c:1430-1432 | the word Infinity is read in every radix, with its sign |
| Reading.Accepts | src/quickjs/dtoa.c:1369-1653 | a text is a number iff it starts with a text of the grammar, infinite iff it starts with the word, and rejected otherwise |
| Reading.RejectedAt | src/quickjs/dtoa.c:1650-1652 | the position of a rejection is behind the sign, behind a prefix without digits or behind the start of an exponent without digits |
| RoundTrip.LayoutDenotes | src/quickjs/dtoa.c:1290-1327 | whatever layout is chosen, the text denotes the digits times radix^(E - P) |
| RoundTrip.FreeDenotes | src/quickjs/dtoa.c:1193-1248 | the free-format text denotes a number whose nearest float64 is the one printed |
| RoundTrip.FixedDenotes | src/quickjs/dtoa.c:1271-1289 | the fixed-format text denotes d correctly rounded to n significant digits, halves away from zero |
| RoundTrip.FracDenotes | src/quickjs/dtoa.c:1254-1270 | the fraction-format text denotes v / radix^n for the integer v nearest to d * radix^n, halves away from zero |
| Notation.FreeText | src/quickjs/dtoa.c:1193-1327 | free format: in mode Auto there is an exponent iff the number is below radix^-6 or from radix^(D + 4) on, D being the fewest digits that distinguish all float64; in the other modes always or never; no zero is redundant; the digits are a correct rounding, and the correct rounding to one digit less does not read back |
| Notation.IntegerText | src/quickjs/dtoa.c:1178-1184 | integers below 2^53 are printed digit by digit unless an exponent is asked for |
| Notation.FixedText | src/quickjs/dtoa.c:1271-1327 | n significant digits: correctly rounded, halves away from zero; in mode Auto an exponent iff the number is below radix^-6 or from radix^n on; n digits are shown |
| Notation.FractionText | src/quickjs/dtoa.c:1254-1270 | n digits behind the dot, of the number with n such digits that is nearest, halves away from zero; no redundant zero before the dot |
| Notation.ZeroText | src/quickjs/dtoa.c:1150-1165 | zero is "0" with as many zeros behind the dot as the format asks for, an exponent and a sign only if they are asked for |
| Notation.DecimalText | src/quickjs/dtoa.c:1294-1297 | in decimal, free format and mode Auto, there is an "e" iff the number is below 0.000001 or at least 10^21 |
| Notation.DecimalPrecision | src/quickjs/dtoa.c:1291-1297 | in decimal, with n significant digits and mode Auto, iff it is below 0.000001 or at least 10^n |
| RoundTrip.NaNReads | src/quickjs/dtoa.c:1141-1144 | the printed "NaN" is rejected by the parser iff the radix is at most 23 |
| RoundTrip.FreeRoundTrip | src/quickjs/dtoa.c:1115-1653 | js_atod reads back what js_dtoa prints in the free format: every float64, radix and exponent mode, up to the sign of zero and NaN in large radices |
| Fallbacks.InsertionSort | src/quickjs/cutils.h:1666-1671 | the short segment is permuted under any callback, and sorted if that is a total preorder; the rest of the array is untouched |
| Fallbacks.SiftDown | src/quickjs/cutils.h:1514-1522 | sinking one element restores the heap from that node on |
| Fallbacks.HeapSort | src/quickjs/cutils.h:1502-1538 | the segment is permuted under any callback, and sorted if that is a total preorder |
| RqSort.Med3 | src/quickjs/cutils.h:1540-1544 | the position returned holds a middle one of the three elements |
| RqSort.FourParts | src/quickjs/cutils.h:1587-1620 | the loop leaves equal, smaller, greater and equal elements in that order |
| RqSort.GatherEqual | src/quickjs/cutils.h:1621-1648 | the two block swaps leave smaller, equal and greater elements |
| RqSort.Partition | src/quickjs/cutils.h:1582-1648 | one partition permutes the segment under any callback, into elements smaller than, equal to and greater than one of its elements if that is a total preorder |
| RqSort.SortSegment | src/quickjs/cutils.h:1575-1671 | one stretch between pops keeps the pending segments apart and in order and never needs more than 50 stack entries, whatever the callback |
| RqSort.Sort | src/quickjs/cutils.h:1547-1673 | for any callback rqsort ends within its bounds with a permutation of the array, a sorted one for every total preorder |
| MergeSort.SortIsStable | include/ut/utlist.h:133-211 | the bottom-up passes yield a sorted permutation in which equal elements keep their order |
| MergeSort.TiesKeepOrder | include/ut/utlist.h:160-178 | of two elements that compare equal the one that came first stays first |
| MergeSort.SortElements | include/ut/utlist.h:133-211 | whatever the comparison does, no element is lost or doubled |
| ListSort.MergeRuns | include/ut/utlist.h:160-190 | one merge of two runs on links is the merge of their sequences, the nodes of the list staying linked |
| ListSort.SortList | include/ut/utlist.h:133-395 | LL_SORT2, DL_SORT2, CDL_SORT2 and HASH_SRT relink the nodes in the order of the sort: single links, prev links with head->prev the tail, the closed ring, or NULL-ended prev links with the tail returned; links of other nodes stay |
| ListSort.SortedStably | include/ut/utlist.h:133-395 | that order is a stable sorted permutation of the list |
| HashChains.InsertOk | include/ut/uthash.h:357-390 | putting a node between two neighbours keeps both links, the head and the count of the chain |
| HashChains.UnlinkOk | include/ut/uthash.h:821-833 | taking a node out keeps both links, the head and the count |
| UtHash.PushBucket | include/ut/uthash.h:803-812 | the item joins the front of the bucket its hash value selects, all other buckets stay as they were |
| UtHash.PopBucket | include/ut/uthash.h:821-833 | the item leaves its bucket, all other buckets stay as they were |
| UtHash.FlatIsOrder | include/ut/uthash.h:524-571 | the chains together hold exactly the items of the list, each once |
| UtHash.TallyStep | include/ut/uthash.h:887-896 | counting one item more keeps the non-ideal count the sum of the excesses and every multiplier the number of ideal lengths that its chain needs, with the exceptions at one item beyond the ideal length and at an ideal length of one |
| UtHash.ExpandStep | include/ut/uthash.h:885-905 | moving one item to its new bucket keeps the moved and the remaining items apart and placed |
| UtHash.BucketDoubles | include/ut/uthash.h:880-905 | with twice as many buckets an item keeps its bucket or moves up by the old number of buckets |
| UtHash.KeyAdded | include/ut/uthash.h:405-425 | with a new key the map gains exactly that entry |
| UtHash.KeyRemoved | include/ut/uthash.h:459-486 | without the item the map loses exactly its key |
| UtHash.PlaceKeepsSorted | include/ut/uthash.h:294-301 | inserting before the first greater item keeps a sorted list sorted |
| HashTable.Table.constructor | include/ut/uthash.h:158-169 | no items, no table |
| HashTable.Table.Find | include/ut/uthash.h:158-169 | the item stored under the key, NULL iff there is none; the Bloom filter hides no stored item |
| HashTable.Table.FindInBucket | include/ut/uthash.h:781-800 | the chain's item with that hash value and key, NULL iff it has none |
| HashTable.Table.MakeTable | include/ut/uthash.h:219-246 | 32 empty buckets, an empty filter of the size asked for and cleared statistics; no first item makes the buckets expand |
| HashTable.Table.ExpandBuckets | include/ut/uthash.h:865-917 | the same items in twice as many buckets, each where its hash value belongs; the ideal length is the ceiling, the non-ideal count the sum of the excesses, each multiplier its chain's length in ideal lengths; two ineffective expansions stop further ones |
| HashTable.Table.AddToBucket | include/ut/uthash.h:803-818 | expands exactly when the bucket reaches its threshold; otherwise the item is in front of its bucket, and nothing else about buckets and statistics has changed; a failed expansion leaves chains, heads, counts and statistics as before |
| HashTable.Table.RollBack | include/ut/uthash.h:143-151 | after a failed expansion list, buckets and count are those before the item was added |
| HashTable.Table.AddToTable | include/ut/uthash.h:321-341 | the item is in the table and its bit in the filter, or everything is as before, and which of the two is decided by threshold and memory; statistics change in an expansion only |
| HashTable.Table.Add | include/ut/uthash.h:405-425 | keeps all that HASH_FSCK checks; the item is last in the list and in the map under its key, or with memory exhausted nothing has changed; a first item makes a fresh table of 32 buckets; a further one changes the statistics exactly when its bucket gets ten items per multiplier and one |
| HashTable.Table.AddInOrder | include/ut/uthash.h:357-389 | the same, with the item before the first that compares greater |
| HashTable.Table.AddAll | include/ut/uthash.h:803-818 | adding any items to an empty table expands the 32 buckets exactly when ten of the hash values agree modulo 32 |
| HashTable.Table.Delete | include/ut/uthash.h:459-486 | keeps all that HASH_FSCK checks; exactly this item leaves the list and its key the map; with the last one the table goes |
| HashTable.Table.Sort | include/ut/uthash.h:923-1009 | the list is in the order of the stable sort, tail pointer and links rebuilt, buckets and map untouched |
| HashTable.Table.FsckCounts | include/ut/uthash.h:524-571 | the sum of the bucket counts, the item count and the length of the list agree |
| Kmp.BuildTable | include/ut/utstring.h:180-206 | every entry is the longest border that a different character follows, or -1 |
| Kmp.BuildTableR | include/ut/utstring.h:209-235 | the same of the reversed needle, seen from the other end |
| Kmp.Find | include/ut/utstring.h:238-261 | the leftmost occurrence, -1 iff there is none, after at most two comparisons for each character of the text |
| Kmp.FindR | include/ut/utstring.h:264-288 | the rightmost occurrence, -1 iff there is none, with the same bound |
| Kmp.UtstringFind | include/ut/utstring.h:291-322 | the leftmost occurrence at or after the start position; -1 iff there is none, the needle is empty or memory runs out |
| Kmp.UtstringFindR | include/ut/utstring.h:325-353 | the rightmost occurrence wholly inside the text up to the start position |
| Kmp.StartFromEnd | include/ut/utstring.h:300-304 | searching from -k is searching from the k-th last character |
| Utf8.SurrogatesRoundTrip | src/quickjs/cutils.h:569-582 | splitting a code point and joining a pair are inverse, and pairs reach exactly the code points from 0x10000 on |
| Utf8.SurrogatesOrdered | src/quickjs/cutils.h:569-577 | pairs lie in the two surrogate ranges and stand in the order of their code points |
| Utf8.EncodeForm | src/quickjs/cutils.h:952-984 | the shortest form: the lead byte tells the length, every further byte is in 0x80 to 0xBF |
| Utf8.EncodeBits | src/quickjs/cutils.h:952-984 | the bits of the bytes, six in each behind the first, are those of the code point |
| Utf8.EncodeOrdered | src/quickjs/cutils.h:952-984 | the encodings stand in the order of their code points |
| Utf8.DecodeEncode | src/quickjs/cutils.h:952-1096 | decoding inverts encoding for every code point below 0x110000, surrogates included |
| Utf8.EncodeDecode | src/quickjs/cutils.h:996-1096 | a form of several bytes is accepted only if it is the encoding of its result; anything else is one byte, ASCII or 0xFFFD |
| Utf8.DecodeLenIsDecode | src/quickjs/cutils.h:1098-1113 | the variant with a length limit decodes like the one that relies on the terminating NUL |
| Utf8Buffers.RoundTrip | src/quickjs/cutils.h:1220-1344 | decoding the encoding of any 16-bit sequence, lone surrogates included, returns it |
| Utf8Buffers.EncodeText | src/quickjs/cutils.h:1299-1344 | the UTF-16 text of any characters is encoded as their UTF-8 text, every surrogate pair as one character |
| Utf8Buffers.DecodeText | src/quickjs/cutils.h:1220-1247 | the UTF-8 text of any code points is decoded to their UTF-16 text |
| Utf8Buffers.EncodeBuf16 | src/quickjs/cutils.h:1299-1344 | the full length whatever the room; the buffer holds as many whole characters as fit and a NUL, nothing is written beyond it |
| Utf8Buffers.EncodeBuf8 | src/quickjs/cutils.h:1256-1290 | the same for bytes |
| Utf8Buffers.DecodeBuf16 | src/quickjs/cutils.h:1220-1247 | the full unit count whatever the room; as many units as fit are stored |
| Utf8Buffers.Scan | src/quickjs/cutils.h:1138-1180 | the length is the unit count of the decoder; each flag is set iff such a code point or error occurs |
| Utf8Buffers.DecodeBuf8 | src/quickjs/cutils.h:1188-1213 | for code points below 0x800, as the comment asks, the low bytes of the units of the 16-bit decoder, and the same units if none is above 0xFF; always ends with a NUL |
| Zip.Zipper.CallNext | src/quickjs/builtin-iterator-zip.js:137-144 | an iterator may be stepped only while open, and records how it answered |
| Zip.Zipper.Close | src/quickjs/builtin-iterator-zip.js:6-14 | an iterator may be closed only while open |
| Zip.Zipper.CloseAll | src/quickjs/builtin-iterator-zip.js:15-24 | exactly the open iterators are closed and the error is ZipRows.CloseError of them |
| Zip.Zipper.SlotDone | src/quickjs/builtin-iterator-zip.js:156-178 | when an iterator ends, its slot decides the row or the collecting goes on, in each of the three modes |
| ZipRows.CloseErrorIsLast | src/quickjs/builtin-iterator-zip.js:15-24 | the error that closing raises is that of the last open iterator in the list that cannot be closed |
| ZipRows.RowIff | src/quickjs/builtin-iterator-zip.js:124-186 | for any streams the outcome of row r is a row iff there is one row more: some stream yields and all others do or, in longest mode, have ended |
| ZipRows.RowsOfRun | src/quickjs/builtin-iterator-zip.js:107-186 | for any streams the first r outcomes are rows iff all streams yield r values (shortest, strict), or one does and no other has failed before (longest) |
| ZipRows.CallIsRow | src/quickjs/builtin-iterator-zip.js:107-186 | call k on a new helper gives a row iff there are k + 1 rows, and then the value or padding of every stream |
| ZipRows.CallValues | src/quickjs/builtin-iterator-zip.js:129-186 | in a row of call k, every slot holds the value its stream gives in that call, or in longest mode the padding once the stream has ended |
| ZipRows.RowsOfLengths | src/quickjs/builtin-iterator-zip.js:107-186 | finite streams give min-length rows in shortest and strict mode and max-length rows in longest mode |
| ZipRows.EndOfLengths | src/quickjs/builtin-iterator-zip.js:156-186 | the first call without a row: in shortest mode the first of the shortest streams ends the run, which fails only if another cannot be closed; in longest mode the end; in strict mode the end iff all lengths agree, else the mismatch |
| Zip.EndsOnce | src/quickjs/builtin-iterator-zip.js:129-186 | an iterator that has ended is neither stepped nor closed again, an open one is stepped at most once in a row, and none stays open when the helper does not go on |
| Zip.Zipper.Next | src/quickjs/builtin-iterator-zip.js:113-186 | for any streams the outcome is that of the first slot that decides the row; exactly the open iterators up to it are stepped, the others that are then open are closed; a failure leaves state 2 |
| Zip.Zipper.Return | src/quickjs/builtin-iterator-zip.js:187-207 | every open iterator is closed once, no other is touched, and the first error met from the end is thrown |
| Zip.CallTimes | src/quickjs/builtin-iterator-zip.js:107-207 | n calls of next on a new helper over any streams give the outcomes 0 to n - 1: the rows, then what ended them once, then the end again or, after a failure, the complaint that the helper is running; no iterator is open behind the rows |
| ZipSetup.OpenAll | src/quickjs/builtin-iterator-zip.js:44-66 | either all items are open iterators, or the first bad one gives the error and all recorded iterators are closed, the iterable too unless it failed itself |
| ZipSetup.ReadPadding | src/quickjs/builtin-iterator-zip.js:67-98 | the padding values, undefined behind the end; the padding iterator is closed iff it was not read to its end and did not fail |
| ZipSetup.PadsAre | src/quickjs/builtin-iterator-zip.js:67-98 | padding value i is the i-th value of the padding iterator as long as it has only given values, undefined behind that |
| ZipSetup.OpenZip | src/quickjs/builtin-iterator-zip.js:38-104 | both steps together, with their error and what became of every iterator |
| ZipSetup.FailedZip | src/quickjs/builtin-iterator-zip.js:58-64 | a failed zip leaves nothing open iff the failure was not in reading an iterator's next property |
| ZipSetup.FilterKeys | src/quickjs/builtin-iterator-zip-keyed.js:44-87 | splicing is an order-preserving filter that keeps keys and iterators aligned; the first failing key gives the error and all iterators are closed |
| ZipSetup.KeyedPads | src/quickjs/builtin-iterator-zip-keyed.js:77-87 | the padding of each kept key, or the error of the first that cannot be read with all iterators closed |
| ZipSetup.KeptDiffer | src/quickjs/builtin-iterator-zip-keyed.js:44-87 | property keys are different, and so are those that are kept |
| ZipSetup.KeptAppend | src/quickjs/builtin-iterator-zip-keyed.js:44-76 | filtering a list of keys in parts is filtering it whole: the order is kept |
| ZipSetup.KeyedRow | src/quickjs/builtin-iterator-zip-keyed.js:111-136 | the loop that assigns the results leaves an object with exactly the keys, each carrying the value of its own iterator |

## Left out

- Atod.JsAtod: covers texts of up to 500,000,000 characters and exponents as mathematical integers; C `int` wrap-around of positions and of a literal exponent near 2^31 times the bits of a digit is not modelled.
- Kmp.UtstringFind: start positions from which the search would start outside the text, that is below minus its length, or at its end or beyond for Kmp.UtstringFindR, which the C functions accept and then read from; and lengths are mathematical integers, the casts to `int` that matter from 2^31 bytes on are not modelled.
- Dtoa.JsDtoa: the text is a growing string; the size of the caller's buffer and `js_dtoa_max_len` are not part of this model.
- HashTable.Table.Add: keys must be new; with duplicate keys the order inside a chain would matter.
- HashTable.Table.ExpandBuckets: bucket counts and the number of buckets do not wrap around 2^32.
- HashTable.Table.SetHandle: the key is stored by value; key pointers and key lengths are not modelled.
- RqSort.Sort: an array of elements with an element swap; byte-wise exchange of elements and its size variants are left out.
- ListSort.SortList: nodes are numbers and links two arrays; the variants without `decltype`, which route assignments through the list head, are left out.
- Zip.Zipper.Next: an exception of an iterator's `return` that is a falsy value counts as none, as in the code; errors raised by the `done` and `value` getters of a result, re-entrant calls and one iterator passed twice are not modelled.
- ZipSetup.OpenZip: the mode and options checks and the errors of `iterables[Symbol.iterator]` and of its `next` property, which come before any iterator is opened, are not modelled.
- Hash functions, HASH_REPLACE, HASH_CLEAR, HASH_SELECT and HASH_ITER: the first are a parameter, the others combine operations that are modelled.
- `i32toa`, `i64toa` and `i64toa_radix`: a minus sign before the unsigned forms.
- The remaining list macros of `utlist.h`, `utarray.h`, `utstack.h` and `DynBuf`: they would add only easy members.
- Half-precision conversion, clocks, threads, paths and printf wrappers of `cutils.h`: finite tables or calls of the operating system.
- The bytecode headers generated from the JavaScript helpers: the helpers themselves are modelled.
