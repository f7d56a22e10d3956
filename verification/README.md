# Verified core algorithms of ESBMC

ESBMC is a bounded model checker for C and C++. This project models, in Dafny,
the algorithms in its sources whose correctness the rest of the tool leans on,
and proves what they promise.

* **Big integers.** A number is a sign and an array of base-2^32 digits.
  `Digits`, `DigitOps`, `LongDivision`, `Scaling` and `DivisionMath` hold the
  carry and borrow loops and long division (Algorithm D of section 4.3.1 of
  Knuth, The Art of Computer Programming, volume 2); `BigInts` the class;
  `Numerals`, `BigIntText` and `BigIntBytes` text and byte strings. A digit and
  a double digit are subset types, so every assignment carries a proof that
  nothing overflows.
* **Virtual tables.** `Hierarchy`, `VirtualTables` and `ClassConversion` follow
  the conversion of C++ classes one after the other: base maps, merged method
  lists, thunks and the map in which the last write wins. Tables are compared
  with the final overrider of the C++ standard. Bases may be multiple, and class
  and method ids may sort in any order.
* **Struct layout.** `Layout` defines alignment, size and the two passes of
  `add_padding` as functions; `StructPadding` has the loops that insert pads
  while they walk over the component list and shows that they compute the
  functions; `LayoutFacts` and `PaddedStructs` follow position and offset through
  both passes, `MemberPlaces` says where members start and `MemberReach` how far
  they go, `PaddedAlignment`, `PaddedUnions` and `ShortPads` what the pads do, and
  `NestedLayout`, `ArrayAlignment` and `OrdinaryTypes` carry it to types inside
  types.
* **Initialisers.** `Initializers` defines the elaboration of a braced list
  driven by a type, `InitializerMethods` the shared cursor and the mutually
  recursive methods, `GivenLists` what the elaboration means, `BraceElision` which
  braces can be left out, and `UnknownSizes` when and where the elaboration stops
  if the list determines the size.
* **Library symbols.** `LibraryClosure` is the worklist that pulls in library
  code.
* **Type names.** `TypeNames` is the encoding by which equal anonymous types are
  merged.
* **Floating literals.** `FloatParsing`, `FloatLiterals` and `FixedPoint` take a
  literal apart and convert it to fixed point.

`dafny verify dfyconfig.toml` checks everything.

## What the code does that its comments or its purpose do not say

* `x /= y` and `x %= y` compute `base / (1 + top)` in 32 bits. In the branch with
  a two-digit or longer divisor, and only there, a top digit of 2^32 - 1 makes
  that a division by zero (`DivisionTraps`); 2^64 divided by 2^64 - 1 is one
  (`TrappingOperands`, `DivideByLargest`).
* The comment on normalisation says it is essential for `guess_q`. The guess is
  right or one too large for every divisor with a non-zero top digit
  (`GuessIsOffByAtMostOne`); normalisation bounds the correction loop to two
  rounds (`AtMostTwoDecrements`).
* `0 /= 0` gives 1 and `0 %= 0` gives 0, since equal magnitudes are handled
  before the check for zero.
* Zero times a negative one-digit number is a negative zero.
* Scanning a text that does not end with the number skips the final adjustment;
  `ScanOn` says exactly when the result is canonical all the same.
* The pad of a union is a member like the others and counts for its alignment,
  which can become a number that is no power of two (`UnionPadMisaligns`). Types
  inside types are aligned in arrays exactly when at each level the strictest
  part divides what the level is aligned to and the bits it takes
  (`AlignedExactlyWhenItFits`); elements of arrays lie bit by bit without gaps,
  so an extended integer has to fill its representation
  (`ExtIntArrayMisaligns`).
* A struct that is packed and has an alignment can change its alignment by its
  own end pad (`PackedAndAlignedChanges`); `PaddingKeepsAlignment` says exactly
  when padding keeps it, for every combination of attributes.
* The second pass of `add_padding` counts started bytes, so behind an array of
  extended integers, whose elements lie without gaps, it counts more bits than
  are taken (`ExtIntArrayShifts`). A class that derives from one with an extended
  integer inherits its pad, which is padded again and skipped uncounted
  (`InheritedPadShifts`). Members are aligned all the same exactly when the
  excess before each of them is a multiple of its alignment (`PaddingLaysOut`).
* An extended integer that is no multiple of the alignment it is given, counted
  with its pad, makes an assertion of `add_padding` fail (`AlignedExtIntFails`);
  otherwise the assertions hold (`PaddingLaysOut`).
* The loop for arrays of unknown size does not end for an element type without
  leaves that is not refused, once it reaches a plain scalar (`EndsExactly`).
* A fixed-point literal with a fraction is not saturated, however large it is
  (`TooLargeWithFraction`, `StoredFits`).
* A quote in a component name would defeat the encoding of types
  (`QuotedNamesClash`).

## Model

| member | source | states |
|---|---|---|
| DigitOps.DigitCmp | src/big-int/bigint.cpp:53-63 | the sign of the difference of two numbers of equal length, found by looking for the first digit from the top that differs |
| DigitOps.TopDigitDecides | src/big-int/bigint.cpp:53-63 | a larger digit outweighs everything below it, which is why the comparison may stop there |
| DigitOps.DigitAdd | src/big-int/bigint.cpp:66-95 | the exact sum with its final carry as one more digit, also when the result is written over either operand, and no sum exceeds two digits |
| DigitOps.DigitSub | src/big-int/bigint.cpp:98-128 | the exact difference for a minuend that is not smaller, also when it is written over either operand, with the early copy of the rest |
| DigitOps.DigitMulSingle | src/big-int/bigint.cpp:132-142 | in place, times one digit plus the returned carry digit; every partial product fits two digits |
| DigitOps.DigitMul | src/big-int/bigint.cpp:147-168 | the schoolbook product of a and b in exactly la + lb digits, zero operand digits skipped, without two-digit overflow |
| DigitOps.ProductFits | src/big-int/bigint.cpp:147-168 | a digit product plus two digits still fits two digits |
| DigitOps.DigitDivSingle | src/big-int/bigint.cpp:172-183 | in place division by one digit: quotient times divisor plus the returned remainder is the old number, remainder below the divisor |
| LongDivision.GuessQ | src/big-int/bigint.cpp:191-211 | the greatest digit whose product with the top two digits of the divisor does not exceed the top three digits of the window |
| LongDivision.AtMostTwoDecrements | src/big-int/bigint.cpp:191-211 | when the top divisor digit is at least half the base the first guess is at most two too large |
| LongDivision.FirstGuessIsEnough | src/big-int/bigint.cpp:191-211 | the first guess is never too small, so counting down finds the greatest digit |
| LongDivision.GuessIsOffByAtMostOne | src/big-int/bigint.cpp:191-211 | for any divisor with a non-zero top digit and any window below divisor times base, the guess is the true quotient digit or one more |
| LongDivision.MultiplyAndSubtract | src/big-int/bigint.cpp:215-235 | subtracts guess times divisor from the window modulo a power of the base and reports whether it borrowed, that is, whether the guess was too large |
| LongDivision.AddBack | src/big-int/bigint.cpp:239-250 | adds the divisor back, dropping the last carry |
| LongDivision.AddBackIsExact | src/big-int/bigint.cpp:239-250 | one addition after a borrow gives the true remainder: the dropped carry cancels the borrow |
| LongDivision.TopDigitIsZero | src/big-int/bigint.cpp:254-269 | after the subtraction the top digit of the window is zero anyway, so forcing it loses nothing |
| LongDivision.DivideWindow | src/big-int/bigint.cpp:254-269 | one round: the quotient digit and a window below the divisor, with window = digit * divisor + remainder |
| LongDivision.QuotientStep | src/big-int/bigint.cpp:254-269 | the digits found so far and the rest of the dividend always make up the dividend, and the next window is again below divisor times base |
| LongDivision.DigitDiv | src/big-int/bigint.cpp:254-269 | the whole loop: dividend = quotient * divisor + remainder, remainder below divisor, with or without storing the quotient |
| DivisionMath.ScaleReachesHalf | src/big-int/bigint.cpp:1096-1110 | the factor base / (1 + top) keeps the top digit times the factor below the base and lifts it to at least half the base |
| DivisionMath.ScaledDivisor | src/big-int/bigint.cpp:1096-1110 | the divisor does not grow a digit under scaling, so the carry that is thrown away is zero |
| DivisionMath.UnscaleRemainder | src/big-int/bigint.cpp:1161-1182 | dividing the scaled remainder by the factor is exact and gives the remainder of the unscaled operands |
| Scaling.ScaledQuotient | src/big-int/bigint.cpp:1096-1182 | scaling both operands by the same factor leaves the quotient alone and scales the remainder |
| Scaling.ScaleOperands | src/big-int/bigint.cpp:1096-1110 | both operands times the factor, the dividend with at most one more digit, the divisor's top digit at least half the base, and the first window below the divisor |
| Scaling.ScaleAndDivide | src/big-int/bigint.cpp:1096-1123 | scaled dividend = quotient * scaled divisor + remainder in terms of the unscaled operands |
| DivisionMath.TruncIsTheOnlyDivision | src/big-int/bigint.cpp:1051-1188 | the pair of truncated quotient and remainder is the only one with x = q * y + r, abs(r) < abs(y) and r zero or signed like x |
| DivisionMath.TruncDivides | src/big-int/bigint.cpp:1051-1188 | the truncated quotient and remainder satisfy that specification |
| BigInts.DigitSet | src/big-int/bigint.cpp:327-343 | the canonical digits of an unsigned 64-bit number |
| BigInts.BigInt.Assign | src/big-int/bigint.cpp:447-452 | the receiver becomes a copy of the operand in a buffer of its own, canonical if the operand is, also when it is assigned to itself |
| BigInts.BigInt.AssignLong | src/big-int/bigint.cpp:352-364 | the receiver becomes the signed 64-bit number, canonical, in its old buffer |
| BigInts.BigInt.Copy | src/big-int/bigint.cpp:424-431 | a copy with the same value in a new buffer |
| BigInts.BigInt.Swap | src/big-int/bigint.hh:313-319 | the two numbers change places |
| BigInts.AllocationSizes | src/big-int/bigint.cpp:31-50 | the capacity is the least that holds the digits, and one more than a ullong_t, and takes whole 32-byte units together with the bookkeeping |
| BigInts.BigInt.Resize | src/big-int/bigint.cpp:293-309 | that capacity if the digits asked for do not fit, else the old one, with the digits kept |
| BigInts.BigInt.Reallocate | src/big-int/bigint.cpp:281-290 | the same capacity, with the contents lost if it grows |
| BigInts.BigInt.Adjust | src/big-int/bigint.cpp:312-324 | strips leading zeros: the same value in canonical form, zero positive |
| BigInts.BigInt.UCompare | src/big-int/bigint.cpp:677-686 | the sign of the difference of the magnitudes |
| BigInts.BigInt.Compare | src/big-int/bigint.cpp:713-721 | the sign of the difference of the values |
| BigInts.BigInt.Negate | src/big-int/bigint.hh:242-247 | minus the value, canonical |
| BigInts.BigInt.Add | src/big-int/bigint.cpp:724-771 | the signed sum in canonical form, in all four cases of sign and magnitude, for an operand in another buffer or the receiver's own |
| BigInts.BigInt.PlusAssign | src/big-int/bigint.cpp:937-941 | x becomes x + y, canonical |
| BigInts.BigInt.MinusAssign | src/big-int/bigint.cpp:943-947 | x becomes x - y, canonical |
| BigInts.BigInt.Mul | src/big-int/bigint.cpp:774-839 | the signed product in all size branches; canonical exactly unless the receiver is zero and the operand a negative one-digit number |
| BigInts.BigInt.TimesAssign | src/big-int/bigint.cpp:949-953 | x becomes x * y, canonical with that one exception |
| BigInts.BigInt.ToUint64 | src/big-int/bigint.cpp:658-667 | the magnitude modulo 2^64 |
| BigInts.SmallIsUint64 | src/big-int/bigint.hh:176-179 | a number of at most two digits is below 2^64, so is_uint64 is sound |
| BigInts.BigInt.LongQuotient | src/big-int/bigint.cpp:1088-1117 | scaling, long division and storing: the quotient of the magnitudes; a trap exactly when the top divisor digit is the largest digit |
| BigInts.BigInt.DivAssign | src/big-int/bigint.cpp:1051-1117 | canonical truncated quotient for every divisor that is not zero; a trap exactly when 1 + top digit wraps to zero in the long branch; division by zero reported exactly for x != 0, and 0 / 0 gives 1 |
| BigInts.TrappingOperands | src/big-int/bigint.cpp:1088-1097 | 2^64 and 2^64 - 1, canonical, are operands of that kind |
| BigInts.DivideByLargest | src/big-int/bigint.cpp:1088-1097 | dividing the one by the other traps |
| BigInts.BigInt.ReduceMagnitude | src/big-int/bigint.cpp:1138-1182 | the remainder of the magnitudes in all three size branches, or the trap |
| BigInts.BigInt.ModAssign | src/big-int/bigint.cpp:1119-1188 | canonical remainder with the sign of x for every divisor that is not zero; same trap and error conditions; 0 % 0 gives 0 |
| BigIntText.ConsumeDigit | src/big-int/bigint.cpp:481-500 | one character read: magnitude times base plus digit |
| Numerals.CharacterValues | src/big-int/bigint.cpp:462-479 | what every character is worth: digits 0 to 9, letters of either case 10 plus their place in the alphabet, and nothing else anything |
| Numerals.ReadingIgnoresCase | src/big-int/bigint.cpp:460-502 | for every text, start and base, reading the text in lower case stops at the same place with the same number |
| BigIntText.ScanOn | src/big-int/bigint.cpp:460-502 | reads up to the first character that is no digit; the result is canonical exactly when the text ended, the number is not zero, or nothing was read into a positive receiver |
| BigIntText.Scan | src/big-int/bigint.cpp:504-511 | optional sign, then digits; the same with the sign |
| BigIntText.AtMostOneDigitCleared | src/big-int/bigint.cpp:540-547 | dividing by a base below the digit base clears at most the top digit, so dropping one digit per round keeps the top digit non-zero |
| BigIntText.AsString | src/big-int/bigint.cpp:521-557 | writes the numeral of the value, right-adjusted and terminated; null exactly when it does not fit |
| Numerals.DigitChars | src/big-int/bigint.cpp:540-547 | the characters written are the digits and the upper-case letters |
| Numerals.TextIsPlain | src/big-int/bigint.cpp:521-557 | the text has no plus sign and no leading zero, and that of a negative number is a minus sign and the text of its absolute value |
| BigIntText.PrintThenScan | src/big-int/bigint.cpp:460-557 | for every base from 2 to 36 scanning the printed text gives the value back, canonical |
| BigIntText.ScanOfText | src/big-int/bigint.cpp:460-511 | reading the numeral of v from left to right gives abs(v), to the end of the text |
| BigIntText.ScanOfLowerText | src/big-int/bigint.cpp:460-511 | and so does reading that numeral in lower case |
| BigIntText.PlusIsReadOver | src/big-int/bigint.cpp:504-511 | a plus sign before a text changes neither where reading stops nor the digits read |
| BigIntText.DigitsBound | src/big-int/bigint.cpp:513-519 | computes the quotient of 32 bits per digit by the bits of the base, rounded up, and the text and its terminator take at most two characters more |
| BigIntText.Log2Bound | src/big-int/bigint.cpp:513-519 | the bits of the base are the exponent of the greatest power of two that does not exceed it |
| BigIntText.TextFits | src/big-int/bigint.cpp:513-557 | with digits(b) + 2 characters the text and its terminator always fit, so as_string does not return null |
| BigIntBytes.Dump | src/big-int/bigint.cpp:559-602 | succeeds exactly when abs(x) < 256^n and then fills the n bytes with abs(x), most significant first, leading zeros included |
| BigIntBytes.FirstByteIsHighest | src/big-int/bigint.cpp:559-632 | of n + 1 bytes the first counts 256^n times its value |
| BigIntBytes.Load | src/big-int/bigint.cpp:604-632 | the magnitude of the bytes without leading zero digits, for any alignment of bytes to digits |
| BigIntBytes.DumpThenLoad | src/big-int/bigint.cpp:559-632 | loading dumped bytes rebuilds abs(x) |
| BigIntBytes.TopIsNotZero | src/big-int/bigint.cpp:604-632 | bytes that start with a non-zero one leave no leading zero digit |
| Hierarchy.SingleInheritanceHasFinalOverrider | src/clang-cpp-frontend/clang_cpp_convert_vft.cpp:29-97 | under single inheritance every virtual function has a final overrider (section 10.3 of ISO/IEC 14882:2003) |
| Hierarchy.BasesComeFirst | src/clang-cpp-frontend/clang_cpp_convert.cpp:1376-1404 | bases are declared before the classes that derive from them |
| VirtualTables.GetBaseMap | src/clang-cpp-frontend/clang_cpp_convert.cpp:1376-1404 | collects exactly the direct and indirect bases, in the order of their ids |
| VirtualTables.AppendKeeps | src/clang-cpp-frontend/clang_cpp_convert.cpp:1456-1468 | appending a new method whose bases' methods are there and that has nothing of a derived class before it keeps the list in base-first order without repetition |
| VirtualTables.DuplicateIsMember | src/clang-cpp-frontend/clang_cpp_convert.cpp:1456-1468 | a method is skipped as a duplicate exactly when it is in the list already |
| VirtualTables.NameDeterminesMethod | src/clang-cpp-frontend/clang_cpp_convert.cpp:1456-1468 | methods are compared by name only, and the name determines the method |
| VirtualTables.GetOverridden | src/clang-cpp-frontend/clang_cpp_convert_vft.cpp:599-624 | collects exactly the methods of the same name in all bases, direct and indirect |
| VirtualTables.NearestFindsAll | src/clang-cpp-frontend/clang_cpp_convert_vft.cpp:599-624 | following the nearest declarations upwards reaches every base that declares the name |
| ClassConversion.Converter.PullBases | src/clang-cpp-frontend/clang_cpp_convert.cpp:1406-1440 | the de-duplicated merge holds exactly the methods of all bases, each base's before those of classes derived from it, in whatever order class ids sort |
| ClassConversion.Converter.AddThunks | src/clang-cpp-frontend/clang_cpp_convert_vft.cpp:82-87 | one thunk for each overridden method and nothing else |
| ClassConversion.Converter.AddVirtualMethods | src/clang-cpp-frontend/clang_cpp_convert_vft.cpp:29-88 | after it the list holds exactly the inherited methods, the class's own virtual methods and their thunks |
| ClassConversion.BuildVtableMap | src/clang-cpp-frontend/clang_cpp_convert_vft.cpp:494-534 | every entry holds the target of the last method in the list that writes to it |
| ClassConversion.LastWriteIsFinalOverrider | src/clang-cpp-frontend/clang_cpp_convert_vft.cpp:494-534 | the last writer of an entry is the final overrider |
| ClassConversion.RowIsCorrect | src/clang-cpp-frontend/clang_cpp_convert_vft.cpp:494-534 | every function a base declares has an entry, so the missing-entry assertion holds, and it reaches the final overrider |
| ClassConversion.MapIsCorrect | src/clang-cpp-frontend/clang_cpp_convert_vft.cpp:494-534 | the map has rows exactly for the class and its bases with virtual methods, all of them correct |
| ClassConversion.Converter.FillTable | src/clang-cpp-frontend/clang_cpp_convert_vft.cpp:575-585 | the table x@y lists the final overriders in the order of x's virtual methods |
| ClassConversion.Converter.AddTables | src/clang-cpp-frontend/clang_cpp_convert_vft.cpp:536-597 | one correct table per row of the map, and tables of other classes untouched |
| ClassConversion.Converter.ConvertClass | src/clang-cpp-frontend/clang_cpp_convert.cpp:244-308 | converting one more class keeps the state valid: method lists complete and all tables so far correct |
| ClassConversion.ConvertAll | src/clang-cpp-frontend/clang_cpp_convert.cpp:244-379 | after a whole program every class has correct tables for itself and each base with virtual methods, and no others |
| ClassConversion.OneFinalOverrider | src/clang-cpp-frontend/clang_cpp_convert_vft.cpp:494-597 | no hierarchy has two final overriders for a call |
| ClassConversion.EveryCallIsDispatched | src/clang-cpp-frontend/clang_cpp_convert_vft.cpp:494-597 | under single inheritance, for every class y, base x and virtual method of x, the table x@y has an entry at the method's place and it leads to the one final overrider |
| Layout.ReprBytes | src/clang-c-frontend/padding.cpp:13-26 | a number of bytes that holds the bits |
| StructPadding.RepresentationBytes | src/clang-c-frontend/padding.cpp:13-26 | the doubling loop finds it |
| NestedLayout.ReprIsLeast | src/clang-c-frontend/padding.cpp:13-26 | and what fits in it is represented in no more |
| NestedLayout.ReprIsPow2 | src/clang-c-frontend/padding.cpp:13-26 | which is a power of two |
| StructPadding.StructType.PadBitField | src/clang-c-frontend/padding.cpp:100-114 | inserts the bit pad and points behind it |
| StructPadding.StructType.PadExtIntAfter | src/clang-c-frontend/padding.cpp:116-131 | inserts the pad after the component and points at it |
| StructPadding.StructType.Pad | src/clang-c-frontend/padding.cpp:133-146 | inserts the byte pad and points behind it |
| StructPadding.StructType.PadBitFields | src/clang-c-frontend/padding.cpp:152-209 | the first loop with its insertions computes the first pass |
| StructPadding.StructType.PadBytewise | src/clang-c-frontend/padding.cpp:215-302 | the second loop with its insertions computes the second pass and stops where an assertion fails |
| StructPadding.StructType.AddPadding | src/clang-c-frontend/padding.cpp:148-329 | add_padding computes the padded components |
| StructPadding.UnionType.AddPadding | src/clang-c-frontend/padding.cpp:331-365 | add_padding for unions computes the padded members |
| LayoutFacts.PaddingKeepsMembers | src/clang-c-frontend/padding.cpp:148-329 | deleting the pads from the result gives back the members in order, whatever the attributes and also for lists that come with pads |
| ShortPads.PackedGetsNoBytes | src/clang-c-frontend/padding.cpp:211-213 | a struct that is packed and has no alignment gets pads of bits and of extended integers only |
| ShortPads.PackedIsKept | src/clang-c-frontend/padding.cpp:211-213 | without bit-fields and extended integers it is left as it is |
| ShortPads.BitFieldsShareBytes | src/clang-c-frontend/padding.cpp:152-209 | bit-fields of positive widths follow each other without gaps and get one pad at most, up to the byte at their end |
| MemberReach.PackedSize | src/clang-c-frontend/padding.cpp:152-213 | its size is a fold over the members: runs of bit-fields rounded up to bytes, extended integers filled, everything else as it is |
| LayoutFacts.FirstPassIsBytewise | src/clang-c-frontend/padding.cpp:152-209 | after the first pass runs of bit-fields fill whole bytes and each extended integer is followed by its pad, also for lists that come with pads |
| PaddedStructs.SecondPassLayout | src/clang-c-frontend/padding.cpp:215-302 | 8 * offset + bits is the bit position of the cursor plus the bits the pass counts beyond those taken; the pass ends on a byte; its assertions hold exactly when every extended integer with its pad is a multiple of its alignment |
| MemberPlaces.SecondPassPlaces | src/clang-c-frontend/padding.cpp:215-302 | the second pass puts every placed member at a multiple of what is demanded of it exactly when the excess before each of them is such a multiple |
| MemberPlaces.FirstPassKeepsPace | src/clang-c-frontend/padding.cpp:152-209 | the first pass, with all its pads, changes no excess before a member |
| MemberPlaces.PaddingPlaces | src/clang-c-frontend/padding.cpp:148-329 | in the whole padded struct the same, for any demand that divides the alignments |
| MemberPlaces.PaddingLaysOut | src/clang-c-frontend/padding.cpp:148-329 | for every list, inherited pads included: the assertions hold exactly when every extended integer fits; then the offset is the size plus the excess and a multiple of the alignment, and every member starts at a multiple of its alignment exactly when the excess before it is a multiple of that alignment |
| MemberPlaces.StartsAlignedAt | src/clang-c-frontend/padding.cpp:265-278 | what an aligned start means member by member, by index |
| MemberPlaces.ZeroWidthAligns | src/clang-c-frontend/padding.cpp:226-232 | in such a struct what follows a bit-field of width zero starts at a multiple of the alignment of its declared type |
| PaddedStructs.UnalignedFails | src/clang-c-frontend/padding.cpp:259-260 | a component to be placed whose alignment is zero makes an assertion fail |
| PaddedStructs.ExcessIsZero | src/clang-c-frontend/padding.cpp:300-301 | without inherited pads of extended integers there is no excess exactly when every member that is neither bit-field nor extended integer takes whole bytes |
| MemberPlaces.ExtIntArrayShifts | src/clang-c-frontend/padding.cpp:300-301 | a list that fails the condition: behind an array of one 33-bit integer an int starts at bit 57 |
| MemberPlaces.InheritedPadShifts | src/clang-c-frontend/padding.cpp:186-199 | another one: in a class derived from one with a 33-bit integer the inherited pad gets a pad of its own, both are skipped uncounted, and an 8-byte member starts at bit 96 |
| MemberPlaces.AlignedExtIntFails | src/clang-c-frontend/padding.cpp:284-296 | an input on which an assertion fails: a 33-bit integer with alignment 16 takes 8 bytes with its pad |
| MemberReach.PassesReach | src/clang-c-frontend/padding.cpp:215-302 | the offset after both passes is a fold over the members: each starts at the next multiple of its alignment and counts its started bytes, bit-fields are packed and end on a byte |
| MemberReach.PaddedReach | src/clang-c-frontend/padding.cpp:148-329 | the offset of the whole struct is what the members reach and the end pad up to the alignment |
| PaddedStructs.PackedTakesWholeBytes | src/clang-c-frontend/padding.cpp:211-213 | a packed struct without alignment takes whole bytes exactly when the excess is whole bytes |
| PaddedAlignment.PaddedMaxAlignment | src/clang-c-frontend/padding.cpp:28-98 | the components of the result are aligned as strictly as the strictest of the members, the pads of their extended integers and the end pad |
| PaddedAlignment.StrictestMemberDecides | src/clang-c-frontend/padding.cpp:63-76 | a struct or union is aligned as the strictest of its members is declared, with the declared type of a bit-field |
| PaddedAlignment.AttributesDecide | src/clang-c-frontend/padding.cpp:42-97 | an alignment that is given replaces that of the type, packing alone drops it, and both together only lower it |
| PaddedAlignment.OneBitField | src/clang-c-frontend/padding.cpp:232-247 | a struct of one bit-field of any width takes the least multiple of the size of the declared type that holds it |
| PaddedAlignment.PaddingKeepsAlignment | src/clang-c-frontend/padding.cpp:28-98 | for every combination of attributes the exact condition on the members under which padding leaves alignment(struct) alone |
| PaddedAlignment.PackedAndAlignedChanges | src/clang-c-frontend/padding.cpp:304-328 | a struct that fails it: packed, aligned(4), one char goes from 1 to 3 |
| ShortPads.PadsAreShort | src/clang-c-frontend/padding.cpp:148-329 | padding is least: the result is the list, inherited pads included, with pads inserted, each shorter than what it serves, that is, the alignment of the next component, a byte, or the representation of the extended integer before it |
| PaddedUnions.UnionSize | src/clang-c-frontend/padding.cpp:331-365 | for every combination of attributes a padded union is as large as its widest member rounded up to a byte if it is packed, else to the alignment it is given, else to that of its members, and it gets a pad exactly when that is larger |
| PaddedUnions.PaddingKeepsUnionAlignment | src/clang-c-frontend/padding.cpp:28-98 | for every combination of attributes the exact condition on the members under which that pad leaves alignment(union) alone |
| PaddedUnions.UnionPadding | src/clang-c-frontend/padding.cpp:331-365 | without attributes a padded union is a multiple of its alignment, which is kept exactly when no pad is needed or the union is smaller than its alignment |
| ArrayAlignment.PaddingNeverFails | src/clang-c-frontend/padding.cpp:253-295 | for members without attributes the assertions at lines 253, 259, 260 and 295 hold and the struct keeps its alignment |
| NestedLayout.Move | src/util/type_byte_size.cpp:107-148 | a type aligned at one bit position is aligned further on exactly when it moves by a multiple of its strictest part, with elements of arrays laid out bit by bit without gaps |
| NestedLayout.InArraysExactly | src/util/type_byte_size.cpp:107-122 | a type is aligned in all arrays at multiples of its alignment exactly when it is aligned at zero and its strictest part divides its alignment and the bits it takes |
| ArrayAlignment.ArrayInArrays | src/util/type_byte_size.cpp:107-122 | arrays of types that are aligned in arrays are so themselves |
| ArrayAlignment.StructInArrays | src/clang-c-frontend/padding.cpp:148-329 | for a padded struct of such members that is so exactly when its members keep pace and the strictest part divides the alignment and the excess in bits |
| ArrayAlignment.UnionInArrays | src/clang-c-frontend/padding.cpp:331-365 | for a padded union exactly when the strictest part divides the alignment that the pad leaves it |
| ArrayAlignment.AlignedExactlyWhenItFits | src/clang-c-frontend/padding.cpp:28-365 | a padded type and all types inside it, at every depth, are aligned wherever they stand in an array exactly when at each level the strictest part divides what that level is aligned to and the bits it takes; an extended integer has to fill its representation |
| OrdinaryTypes.OrdinaryTypesFit | src/clang-c-frontend/padding.cpp:28-365 | types whose unions need no pad or are smaller than their alignment, and whose arrays hold extended integers only if these fill their representation, meet that condition |
| OrdinaryTypes.OrdinaryTypesAreAligned | src/clang-c-frontend/padding.cpp:28-365 | so everything inside them is aligned in all arrays |
| OrdinaryTypes.PadTypeKeepsAlignment | src/clang-c-frontend/padding.cpp:28-98 | padding inside out changes no alignment at any depth while unions need no pad or are smaller than their alignment |
| OrdinaryTypes.UnionPadMisaligns | src/clang-c-frontend/padding.cpp:353-364 | a type that fails it: a union whose pad raises the alignment to 12 makes the double of the second element lie at byte 36 |
| OrdinaryTypes.ExtIntArrayMisaligns | src/util/type_byte_size.cpp:107-122 | another one: in an array of 63-bit integers, aligned to 8 bytes, the second lies at bit 63 |
| InitializerMethods.InitState.Next | src/ansi-c/c_typecheck_base.h:74-78 | the cursor moves by one |
| InitializerMethods.ZeroInitializer | src/ansi-c/c_typecheck_initializer.cpp:22-119 | builds the zero value, or throws as the function that specifies it does |
| InitializerMethods.DoInitializer | src/ansi-c/c_typecheck_initializer.cpp:240-280 | returns what the elaboration function gives and leaves the cursor where it says |
| InitializerMethods.DoArray | src/ansi-c/c_typecheck_initializer.cpp:282-350 | the same for arrays, filling the rest with zeros |
| InitializerMethods.DoStruct | src/ansi-c/c_typecheck_initializer.cpp:382-426 | the same for structs |
| InitializerMethods.DoIncompleteArray | src/ansi-c/c_typecheck_initializer.cpp:352-380 | takes elements until the list is used up, or throws, whenever the loop ends |
| GivenLists.ZeroLeaves | src/ansi-c/c_typecheck_initializer.cpp:22-119 | the zero value of any type that has one has exactly the type's leaves, all zero |
| GivenLists.BuiltLeaves | src/ansi-c/c_typecheck_initializer.cpp:282-464 | the leaves of what a list builds are those of its parts in order, with zeros wherever a pair of braces or the list ends early, as many as the type has |
| GivenLists.ElaborationSpreads | src/ansi-c/c_typecheck_initializer.cpp:240-464 | whatever inner braces are written, subobject by subobject and also around fewer scalars than a subobject holds, elaborating the list builds that value and uses the list up (section 6.7.8 of ISO/IEC 9899:1999) |
| GivenLists.ExcessIsIgnored | src/ansi-c/c_typecheck_initializer.cpp:240-280 | what a subobject's braces hold after everything it needs is ignored |
| GivenLists.BracedScalar | src/ansi-c/c_typecheck_initializer.cpp:240-280 | a scalar loses one pair of braces and is converted from the first item inside, with any braces that has |
| GivenLists.SizeLimit | src/ansi-c/c_typecheck_initializer.cpp:298-311 | an array is refused for its size exactly when that is negative or above a million |
| BraceElision.DenseSpread | src/ansi-c/c_typecheck_initializer.cpp:240-464 | if no inner braces end early, the leaves are the scalars in order and zeros after them |
| BraceElision.ElidedEqualsBraced | src/ansi-c/c_typecheck_initializer.cpp:240-464 | then the list of the scalars alone elaborates to the same value |
| BraceElision.FilledLeaves | src/ansi-c/c_typecheck_initializer.cpp:282-464 | the leaves that plain scalars fill are the scalars followed by zeros |
| BraceElision.PartlyBraced | src/ansi-c/c_typecheck_initializer.cpp:240-280 | one of two rows in braces, {a, b}, c, d, is such a list |
| BraceElision.ShortRows | src/ansi-c/c_typecheck_initializer.cpp:240-280 | two rows that end early, {a}, {c}, spread to a, 0, c, 0 |
| BraceElision.TakesItsLeaves | src/ansi-c/c_typecheck_initializer.cpp:240-280 | of n scalars left a type with k leaves takes exactly min(k, n), and its value is filled with them |
| UnknownSizes.Advances | src/ansi-c/c_typecheck_initializer.cpp:352-380 | a type with a leaf always moves the cursor |
| UnknownSizes.StuckWithoutLeaves | src/ansi-c/c_typecheck_initializer.cpp:352-380 | a type without leaves does not move it past a plain scalar |
| UnknownSizes.DeniedThrows | src/ansi-c/c_typecheck_initializer.cpp:22-464 | which lists in braces a type without leaves refuses, from the type and the list: where a size is out of range, where a part left over has no zero value, and where a scalar gets stuck |
| UnknownSizes.EndsExactly | src/ansi-c/c_typecheck_initializer.cpp:352-380 | the loop over the elements ends exactly when the element type has a leaf, is refused, or every plain scalar comes after a list in braces that it refuses |
| UnknownSizes.UnknownSize | src/ansi-c/c_typecheck_initializer.cpp:352-380 | n scalars make exactly the ceiling of n / k elements, the last padded with zeros |
| UnknownSizes.UnknownSizeGiven | src/ansi-c/c_typecheck_initializer.cpp:352-380 | a list of elements in braces or without makes one element for each, built from it |
| LibraryClosure.Linker.IngestSymbol | src/c2goto/cprover_library.cpp:98-117 | the symbol's edges move to the end of the list and are erased |
| LibraryClosure.Linker.TakeSeeds | src/c2goto/cprover_library.cpp:183-192 | the library symbols the program lacks are stored |
| LibraryClosure.Linker.TakeDependencies | src/c2goto/cprover_library.cpp:194-203 | the walk over the growing list terminates and ends with the least closure of what was stored |
| LibraryClosure.LinkedSymbols | src/c2goto/cprover_library.cpp:162-203 | the least set of library symbols that holds those wanted, everything in the library that its members depend on, and the checked variant of each locking function it holds |
| LibraryClosure.ClosedIsComplete | src/c2goto/cprover_library.cpp:162-177 | a set is closed under the multimap with the three edges added exactly when it is closed under the edges given and holds those variants |
| LibraryClosure.LeastClosureIsReached | src/c2goto/cprover_library.cpp:179-203 | a set is that closure exactly when it holds what chains of dependencies through the library reach from the seeds |
| TypeNames.TypeToName | src/ansi-c/type2name.cpp:15-136 | computes the name |
| TypeNames.ComponentsToName | src/ansi-c/type2name.cpp:85-97 | the loop over the components, with the last character trimmed |
| TypeNames.NamesCut | src/ansi-c/type2name.cpp:15-136 | names are self-delimiting: from a name and what follows, type and rest can be told |
| TypeNames.SameNameIffSameType | src/ansi-c/type2name.cpp:15-136 | two types have the same name exactly when they are equal up to tags |
| TypeNames.QuotedNamesClash | src/ansi-c/type2name.cpp:93-96 | with a quote in a component name two different structs can share a name |
| TypeNames.CodesOfScalars | src/ansi-c/type2name.cpp:19-47 | the codes of scalars and qualifiers |
| TypeNames.CodesOfSubtypes | src/ansi-c/type2name.cpp:48-121 | the codes of pointers, references, bit-fields and arrays |
| TypeNames.CodesOfAggregates | src/ansi-c/type2name.cpp:85-101 | the codes of structs and unions, complete or not, and what trimming leaves of those without components |
| TypeNames.TaggedIsTagged | src/ansi-c/c_typecheck_base.cpp:68-69 | giving a type a tag changes the tag and nothing else |
| TypeNames.AnonymousTypes.TypecheckAnonymous | src/ansi-c/c_typecheck_base.cpp:54-69 | an anonymous type gets the symbol named after it, which has its own type up to tags, and no two symbols ever have the same; a new symbol has the type itself with the tag #anon# and its name |
| FloatParsing.StringToInteger | src/util/mp_arith.cpp:39-46 | the integer of the text as a big integer |
| FloatParsing.AlphanumericTexts | src/util/mp_arith.cpp:39-46 | a text of letters and digits is worth its digits up to the first character that is none of the base, and a minus sign negates it |
| FloatParsing.OtherTextsAreZero | src/util/mp_arith.cpp:39-46 | a text with any other character, or a minus sign after its start, is zero |
| FloatParsing.HexTexts | src/ansi-c/parse_float.cpp:32-38 | powers of two belong to exactly the texts that start with 0x or 0X |
| FloatParsing.NulEndsTheText | src/ansi-c/parse_float.cpp:32-163 | nothing behind a NUL is read, whatever the text |
| FloatParsing.ParseFloat | src/ansi-c/parse_float.cpp:11-164 | the loops over the literal compute its parts, numbers and flags, for any text |
| FloatLiterals.PartsOfLiteral | src/ansi-c/parse_float.cpp:32-134 | for every well-formed literal the parts found are those of the grammar (section 6.4.4.2 of ISO/IEC 9899:1999) |
| FloatLiterals.ParsedLiteral | src/ansi-c/parse_float.cpp:74-163 | significand, exponent, base and flags of a well-formed literal; the flags say which letters are in its suffix, of those of the standard and the extensions |
| FloatLiterals.ParsedIsDenoted | src/ansi-c/parse_float.cpp:11-150 | significand * base^exponent is exactly the number the literal denotes |
| FixedPoint.RaiseToPower | src/util/arith_tools.cpp:105-122 | computes the power |
| FixedPoint.ToFixed | src/ansi-c/convert_float_literal.cpp:57-79 | scales, divides or multiplies, and saturates only when multiplying |
| FixedPoint.ConvertFloatLiteral | src/ansi-c/convert_float_literal.cpp:17-82 | picks the type by the suffix and stores the scaled number |
| FixedPoint.LiteralRoundsDown | src/ansi-c/convert_float_literal.cpp:57-66 | for every well-formed literal v <= denoted * 2^fraction bits < v + 1 for the number v before saturation |
| FixedPoint.StoredFits | src/ansi-c/convert_float_literal.cpp:60-78 | the number stored fits the width exactly when the exponent is not negative or the scaled number fits |
| FixedPoint.TooLargeWithFraction | src/ansi-c/convert_float_literal.cpp:62-63 | 40000.5 with 16 integer and 16 fraction bits is neither saturated nor in range |
| FixedPoint.StoredIsClosest | src/ansi-c/convert_float_literal.cpp:62-79 | for an exponent that is not negative, what is stored is the number of -2^(width - 1) to 2^(width - 1) - 1 that is closest to significand * 2^fraction bits * base^exponent |
| FixedPoint.ScalingIsOdd | src/ansi-c/convert_float_literal.cpp:57-66 | a negative significand gives the negated number, so rounding is towards zero |
| FixedPoint.BitsMakeTheWidth | src/ansi-c/convert_float_literal.cpp:46-55 | integer and fraction bits make up the width; without integer bits the fraction takes half |
| FixedPoint.LiteralIsStored | src/ansi-c/convert_float_literal.cpp:46-81 | a literal that is in range or has a negative exponent is stored rounded down |
| FixedPoint.LiteralIsSaturated | src/ansi-c/convert_float_literal.cpp:67-72 | one that is too large and has an exponent that is not negative is stored as the greatest number |

## Left out

- The static `BigInt::div`: it divides the wrong operand and mis-signs equal
  magnitudes; `operator/=` and `operator%=` are the subject.
- `x += x` when the buffer has to grow: the source then reads a buffer that has
  been replaced. `Add` asks that the result fits when the operand is the
  receiver's own buffer.
- Heap and stack management of digit buffers, other digit widths, and lengths
  beyond 32 bits: only capacity and contents are modelled.
- The overloads of the operators for elementary integers, `to_int64`, `is_int64`,
  `floorPow2` and `setPower2`: the same primitives again.
- Texts with a NUL inside as big integers, and locale-dependent upper-casing.
- Virtual destructors, overloaded virtual names, ambiguous overriders, covariant
  results, the choice between virtual and repeated bases, and the comparison of
  types at line 583 of clang_cpp_convert_vft.cpp. Thunk bodies are not modelled,
  only the class and function a thunk stands for.
- The order of method ids: a separate key per method stands for the id string.
- Designated initialisers, strings, expressions of struct type, casts of leaves
  and empty braces: a leaf keeps the expression it is given.
- ElaborationSpreads: lists with more items in a pair of braces than the subobject takes, which the language forbids, and scalars in more than one pair; ExcessIsIgnored and BracedScalar cover these one pair at a time.
- Symbol types, enumerations and flexible arrays in struct layout; names of pad
  fields; extended integers that are bit-fields.
- AlignedExactlyWhenItFits: types declared in C without attributes, that is, without inherited pads, arrays of bit-fields and basic types whose size is no power of two; structs with attributes are covered one level deep by PaddingPlaces and PaddingKeepsAlignment.
- The traversal that finds the dependency edges of library symbols, and linking
  itself: the edges and the names the program lacks are parameters.
- SameNameIffSameType: function types, enumerations, symbol references and merged types are not modelled; their encodings leave something out.
- The IEEE branch of the conversion of literals and the bit string of a stored
  value; `string2integer` is modelled on top of `BigIntText`.
- expr2c, expr2cpp, the AST traversal, language drivers and test harness: no
  claims of this kind are made for them.
