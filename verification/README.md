# Verified models of three vendored Boost headers

The repository's own code is a JNI stub; its substance is the Boost headers it vendors. This
project models three of them and proves what they are for:

- **`crc.hpp`** — the bit-at-a-time engine, the table-driven engine (direct and reflected) and
  the augmented-message function compute remainders of polynomial division over GF(2), and
  agree. A remainder lives in the low `bits` bits of a machine word of any width at least
  `bits`; whatever the shifts leave above those bits is part of the model and is shown not to
  matter. Bit strings are written most significant bit first; what the word operations do to the
  numbers they stand for, and which bits a byte has, is proved (`BitNumbers`, `CrcNumbers`).
- **`rational.hpp`** — arithmetic that cancels small gcds instead of normalizing its result, and
  the comparison by continued fractions, with the C++ truncating `/` and `%`. The gcd is the
  mixed binary algorithm of `integer/common_factor_rt.hpp`; its meaning is fixed by the
  recursion of `inner_gcd` and the universal property of the greatest common divisor.
- **`token_functions.hpp`, `token_iterator.hpp`** — four separators with state that survives
  between calls, and the iterator that drives them. A separator is specified by the finite list
  of tokens still to come; every call takes one token off that list, so termination of the
  iteration and the exact token sequence are one contract.

## Layout

| files | content |
|---|---|
| `BitStrings`, `BitNumbers` | bit strings and words; the numbers they stand for |
| `CrcTheory`, `PolynomialDivision`, `CrcMessages`, `CrcNumbers` | linearity, absorb law, residue, bursts; division with unique quotient and remainder; bytes as bits; steps and messages as numbers |
| `CrcWords`, `CrcEngines`, `CrcTableEngine` | words with junk above the remainder; the classes and loops of `crc.hpp` |
| `IntegerMath`, `IntegerGcd`, `FixedWidth` | divisibility, gcd, lcm; the binary gcd loop; normalization and sums in a type of fixed width |
| `Fractions`, `QuickArithmetic`, `ContinuedFractions`, `Rational`, `RationalGcd` | textbook fractions and their laws; the fast algorithms; the class; gcd and lcm of rationals |
| `Tokens`, `EscapedList`, `CharFields`, `CharSeparator`, `OffsetSeparator`, `TokenIterator` | the separators, their one-pass meanings, the iterator and the `tokenizer` |

`dafny verify dfyconfig.toml` checks everything.

## Findings

- `char_separator::reset()` does nothing, so a functor that has just delivered a field keeps that
  memory. Iterators work on a copy, so the separator in a caller's hands is not affected; a functor
  taken from a finished iterator by `tokenizer_function()`, or called directly, is. An iterator made
  with it yields the whole split of a non-empty text if and only if the functor has not just
  delivered a field or the text does not start with a delimiter (`TokenIterators.WholeSplitExact`);
  `TokenIterators.SplitWithUsedFunctor` gets there by iterating one text and then loses the leading
  empty field of a second. A character listed as both kept and dropped counts as kept when empty
  tokens are kept and as dropped otherwise.
- `escaped_list_separator` tests for `n` before anything else after an escape, so every `n` that has
  to be escaped comes back as a newline (`EscapedList.ReadWritten`): writing fields round-trips if and
  only if `n` is neither an escape nor a quote character nor, for fields without quotes, a separator
  (`EscapedList.RoundTripExact`, failing input in `EscapedList.NewlineBreaks`). A single empty field
  without quotes is an empty text, of which an iterator yields no field (`TokenIterators.WriteAndRead`).
- `offset_separator` with a wrapping list of offsets none of which is positive never ends on a
  non-empty text. With `return_partial_last` off a short token is delivered if and only if the text
  ends exactly one character before the offset it ends inside, and nothing is lost if and only if
  the offsets reach to the end of the text and it does not end inside one anywhere else
  (`OffsetSeparators.ShortPieceExact`, `OffsetSeparators.NothingLostExact`).
- In a fixed-width type `normalize` notices a denominator that cannot be made positive, but not a
  most negative numerator: with a negative denominator coprime to it the sign is lost silently, as
  for -128/-3 in eight bits (`FixedWidth.EightBitExamples`). The gcd it asks for is itself undefined
  for the most negative value with 0 or itself, and with -1 in `int` and wider types; narrower operands
  are promoted, so there -128/-1 is accepted and loses its sign too (`FixedWidth.GcdDefinedExact`).
- `+=` is described as avoiding overflow. For a/b + c/d with g the gcd of the denominators and
  n = a\*d + c\*b, every step of it stays within lo..hi if and only if a\*d, c\*b and n are within
  lo\*g..hi\*g and b\*d is at most hi times gcd(n, b\*d) (`QuickArithmetic.SumStepsExact`, and
  `DifferenceStepsExact` for `-=`); the two products do not matter when the operand type is narrower than
  `int` and thus promoted, or when the numerators have one sign (`OneSignSumDecides`). The answer may fit
  and the steps not: 99/2 + 29/2 in eight bits or 2147483647/2 + 1/2 in 32 overflow in the numerator
  (`SumNumeratorMayOverflow`), 1073741825/3 + -715827883/2 overflows 32 bits in both products only
  (`SumProductsMayOverflow`, also with the smaller 100/3 + -67/2).
- Two valid `token_iterator`s at different tokens can compare equal, since `equal` looks at positions
  only: for "a," with the usual escaped list syntax, the one at "a" and the one at the empty field
  (`TokenIterators.EqualAtDifferentTokens`). An iterator equals the same one moved on by a token exactly
  when that token is delivered in place, a condition on the functor and its position before the call
  (`TokenIterators.IncrementOne`), and then the token is empty.
- Error bursts up to the width of the code are all detected if and only if the low bit of the
  truncated polynomial is set, for the bit messages of `crc_basic` (`CrcTheory.BurstDetectionExact`)
  and for byte messages with either input order (`CrcMessages.ByteBurstDetectionExact`); the classes
  accept any polynomial.

## Model

| member | source | states |
|---|---|---|
| `BitNumbers.ByteBit` | app/src/main/cpp/thirdparty/include/boost/crc.hpp:753-770 | bit j of the string that stands for a byte is its bit 7 - j: x / 2^(7-j) % 2 is 1 |
| `BitNumbers.ToNatBit` | app/src/main/cpp/thirdparty/include/boost/crc.hpp:727-751 | the bits of a string are those of the number it stands for, the last one being bit 0 |
| `BitNumbers.ShlValue` | app/src/main/cpp/thirdparty/include/boost/crc.hpp:740-750 | `<<` multiplies by a power of two modulo the size of the word |
| `BitNumbers.ShrValue` | app/src/main/cpp/thirdparty/include/boost/crc.hpp:538-582 | `>>` divides by a power of two |
| `BitNumbers.LowValue` | app/src/main/cpp/thirdparty/include/boost/crc.hpp:696-704 | the low bits are the value modulo a power of two |
| `BitNumbers.MaskValues` | app/src/main/cpp/thirdparty/include/boost/crc.hpp:283-356 | the masks `high_bit` and `sig_bits` are 2^k and 2^n - 1 |
| `BitNumbers.BitwiseValues` | app/src/main/cpp/thirdparty/include/boost/crc.hpp:727-823 | exclusive or, and, or act on every bit of the values |
| `BitNumbers.ReverseValue` | app/src/main/cpp/thirdparty/include/boost/crc.hpp:306-326 | reflection exchanges bit k and bit n - 1 - k of the value |
| `CrcNumbers.StepBit` | app/src/main/cpp/thirdparty/include/boost/crc.hpp:727-751 | a division step bit by bit: shift up, add the polynomial if the top bit differs from the message bit |
| `CrcNumbers.MessageBit` | app/src/main/cpp/thirdparty/include/boost/crc.hpp:753-812 | bytes are fed in order, each from its highest bit down, or from its lowest up if reflected |
| `CrcNumbers.SmallestChecksums` | app/src/main/cpp/thirdparty/include/boost/crc.hpp:727-823 | from zero, no message gives the final xor value and the byte with only its last processed bit set gives the polynomial xor that value, reflected as asked |
| `CrcEngines.Reflect` | app/src/main/cpp/thirdparty/include/boost/crc.hpp:306-326 | the reflection loop yields the low bits in reverse order with zeros above |
| `CrcEngines.CrcBasic.ProcessBit` | app/src/main/cpp/thirdparty/include/boost/crc.hpp:727-751 | the word update performs one division step on the low bits, whatever is above them |
| `CrcEngines.CrcBasic.ProcessBits` | app/src/main/cpp/thirdparty/include/boost/crc.hpp:753-770 | exactly the low `bitCount` bits are fed, most significant first |
| `CrcEngines.CrcBasic.ProcessByte` | app/src/main/cpp/thirdparty/include/boost/crc.hpp:772-782 | one byte, reflected if asked |
| `CrcEngines.CrcBasic.ProcessBlock` | app/src/main/cpp/thirdparty/include/boost/crc.hpp:772-812 | a block is the run over its bytes' bits, each byte reflected if asked |
| `CrcEngines.CrcBasic.InterimRemainder` | app/src/main/cpp/thirdparty/include/boost/crc.hpp:696-704 | masking shows the remainder alone |
| `CrcEngines.CrcBasic.Checksum` | app/src/main/cpp/thirdparty/include/boost/crc.hpp:814-823 | the possibly reflected remainder xor the final value, and nothing above it |
| `CrcEngines.CrcBasic.constructor` | app/src/main/cpp/thirdparty/include/boost/crc.hpp:630-644 | the fields hold the parameters, the remainder the initial one |
| `CrcEngines.CrcBasic.Reset` | app/src/main/cpp/thirdparty/include/boost/crc.hpp:706-725 | the remainder is the initial one again |
| `CrcEngines.CrcTable.InitTable` | app/src/main/cpp/thirdparty/include/boost/crc.hpp:488-536 | the wrap-around loop fills all 256 entries, each with the division of the byte it stands for; a second call changes nothing |
| `CrcEngines.CrcTable.Divide` | app/src/main/cpp/thirdparty/include/boost/crc.hpp:507-528 | the mask loop divides one byte |
| `CrcEngines.CrcTable.Enter` | app/src/main/cpp/thirdparty/include/boost/crc.hpp:505-532 | one round of the outer loop puts one more entry in place and keeps the others |
| `CrcEngines.CrcTable.TableLinear` | app/src/main/cpp/thirdparty/include/boost/crc.hpp:488-536 | table[x xor y] is table[x] xor table[y], direct and reflected |
| `CrcWords.WordStepIsStep` | app/src/main/cpp/thirdparty/include/boost/crc.hpp:512-527 | a step on a word with junk above the remainder is a division step on the remainder |
| `CrcWords.AlignedIsTop` | app/src/main/cpp/thirdparty/include/boost/crc.hpp:538-560 | both specializations of `align_msb` give the top byte of the remainder, padded below 8 bits |
| `CrcWords.DirectUpdate` | app/src/main/cpp/thirdparty/include/boost/crc.hpp:601-621 | index, shift and table lookup perform eight division steps, for any width |
| `CrcWords.ReflectedUpdate` | app/src/main/cpp/thirdparty/include/boost/crc.hpp:563-582 | the right-shifting form performs the same eight steps on the remainder held backwards |
| `CrcTableEngine.CrcOptimal.constructor` | app/src/main/cpp/thirdparty/include/boost/crc.hpp:832-843 | the object holds the initial remainder and a complete table |
| `CrcTableEngine.CrcOptimal.Reset` | app/src/main/cpp/thirdparty/include/boost/crc.hpp:918-929 | the remainder is the low bits of the given value, held reflected if input is |
| `CrcTableEngine.CrcOptimal.InterimRemainder` | app/src/main/cpp/thirdparty/include/boost/crc.hpp:905-916 | the un-reflected remainder |
| `CrcTableEngine.CrcOptimal.ProcessBlock` | app/src/main/cpp/thirdparty/include/boost/crc.hpp:944-966 | byte-at-a-time processing equals the bit-by-bit run |
| `CrcTableEngine.CrcOptimal.ProcessByte` | app/src/main/cpp/thirdparty/include/boost/crc.hpp:931-942 | a byte is a block of one |
| `CrcTableEngine.CrcOptimal.TakeByte` | app/src/main/cpp/thirdparty/include/boost/crc.hpp:957-965 | one round of the loop performs eight division steps |
| `CrcTableEngine.CrcOptimal.Checksum` | app/src/main/cpp/thirdparty/include/boost/crc.hpp:984-995 | output is reflected as `ReflectRem` says although `reflect_output` compares both flags |
| `CrcTableEngine.Crc` | app/src/main/cpp/thirdparty/include/boost/crc.hpp:1025-1040 | the one-call checksum of a buffer |
| `CrcTableEngine.BothEngines` | app/src/main/cpp/thirdparty/include/boost/crc.hpp:730-823 | bitwise and table engine give equal checksums and interim remainders for all widths, polynomials, seeds, final xors, flags and messages, also in several blocks |
| `CrcTableEngine.AugmentedCrc` | app/src/main/cpp/thirdparty/include/boost/crc.hpp:1045-1076 | the result is the remainder of initial remainder followed by message modulo the generator |
| `CrcTableEngine.AugmentedBytes` | app/src/main/cpp/thirdparty/include/boost/crc.hpp:1045-1076 | augmenting with zero bytes gives the plain CRC; augmenting with bytes c gives zero iff c is the plain CRC |
| `PolynomialDivision.RunIsRemainder` | app/src/main/cpp/thirdparty/include/boost/crc.hpp:727-751 | the engine's remainder is that of seed * x^length + message * x^bits modulo the generator |
| `PolynomialDivision.AugRunIsRemainder` | app/src/main/cpp/thirdparty/include/boost/crc.hpp:1064-1073 | the augmented form's remainder is that of seed followed by message |
| `PolynomialDivision.DivisionUnique` | app/src/main/cpp/thirdparty/include/boost/crc.hpp:727-751 | quotient and remainder are determined by dividend and generator |
| `PolynomialDivision.AugmentedIsPlain` | app/src/main/cpp/thirdparty/include/boost/crc.hpp:1045-1076 | for any seed, augmenting by a register of zeros is the plain CRC with the seed advanced by as many zeros |
| `CrcTheory.RunLinear` | app/src/main/cpp/thirdparty/include/boost/crc.hpp:730-797 | whole runs are linear in seed and message together |
| `CrcTheory.Absorb` | app/src/main/cpp/thirdparty/include/boost/crc.hpp:957-965 | message bits act only through their xor with the top bits; the rest of the remainder is shifted |
| `CrcTheory.BurstDetectionExact` | app/src/main/cpp/thirdparty/include/boost/crc.hpp:730-797 | all bursts up to the width are detected iff the polynomial has a constant term |
| `CrcMessages.BurstChangesChecksum` | app/src/main/cpp/thirdparty/include/boost/crc.hpp:730-823 | byte messages differing in such a burst have different checksums, with any flags |
| `CrcMessages.ByteBurstDetectionExact` | app/src/main/cpp/thirdparty/include/boost/crc.hpp:730-823 | on byte messages, whichever the flags, checksums tell all such bursts apart iff the polynomial has a constant term |
| `CrcMessages.MissedByteBurst` | app/src/main/cpp/thirdparty/include/boost/crc.hpp:730-797 | without one, two byte messages that differ in a burst of the code's width have the same remainder |
| `CrcTheory.ResidueTestExact` | app/src/main/cpp/thirdparty/include/boost/crc.hpp:730-823 | with an odd polynomial the residue is left by the right checksum and by no other |
| `CrcMessages.UnreflectedResidue` | app/src/main/cpp/thirdparty/include/boost/crc.hpp:949-995 | message then checksum, high byte first, leaves a remainder depending on polynomial and final xor only; zero without final xor |
| `CrcMessages.ReflectedResidue` | app/src/main/cpp/thirdparty/include/boost/crc.hpp:949-995 | the same for both flags set, low byte first |
| `CrcMessages.UnreflectedTestExact` | app/src/main/cpp/thirdparty/include/boost/crc.hpp:949-995 | after a message, of all byte strings of the checksum's size only the checksum, high byte first, leaves the residue |
| `CrcMessages.ReflectedTestExact` | app/src/main/cpp/thirdparty/include/boost/crc.hpp:949-995 | the same for both flags set, low byte first |
| `IntegerMath.GcdUniversal` | app/src/main/cpp/thirdparty/include/boost/rational.hpp:387-394 | `inner_gcd` with truncating `%` is the greatest common divisor up to sign |
| `IntegerMath.LcmUniversal` | app/src/main/cpp/thirdparty/include/boost/integer/common_factor_rt.hpp:430-439 | the multiples of the lcm are the common multiples |
| `IntegerGcd.MixedBinaryGcd` | app/src/main/cpp/thirdparty/include/boost/integer/common_factor_rt.hpp:331-360 | the mixed binary loop terminates with the gcd |
| `IntegerGcd.MakeOdd` | app/src/main/cpp/thirdparty/include/boost/integer/common_factor_rt.hpp:129-142 | splits off all factors of two and counts them |
| `IntegerGcd.IntGcd` | app/src/main/cpp/thirdparty/include/boost/integer/common_factor_rt.hpp:444-452 | gcd of signed arguments through their absolute values |
| `IntegerGcd.IntLcm` | app/src/main/cpp/thirdparty/include/boost/integer/common_factor_rt.hpp:430-458 | lcm by dividing before multiplying |
| `Fractions.ChecksAgree` | app/src/main/cpp/thirdparty/include/boost/rational.hpp:403-409 | `is_normalized` accepts exactly the pairs that meet `test_invariant` |
| `Fractions.CanonicalUnique` | app/src/main/cpp/thirdparty/include/boost/rational.hpp:823-836 | normalized fractions of equal value have equal fields |
| `Fractions.ReduceDecidesEquality` | app/src/main/cpp/thirdparty/include/boost/rational.hpp:838-873 | two pairs normalize to the same fields iff they are the same fraction |
| `Fractions.AddAssociative` | app/src/main/cpp/thirdparty/include/boost/rational.hpp:489-522 | addition is associative on the stored fields |
| `Fractions.AddCommutative` | app/src/main/cpp/thirdparty/include/boost/rational.hpp:489-522 | addition is commutative on the stored fields |
| `Fractions.MulCommutative` | app/src/main/cpp/thirdparty/include/boost/rational.hpp:543-556 | multiplication is commutative on the stored fields |
| `Fractions.MulAssociative` | app/src/main/cpp/thirdparty/include/boost/rational.hpp:543-556 | multiplication is associative on the stored fields |
| `Fractions.MulDistributes` | app/src/main/cpp/thirdparty/include/boost/rational.hpp:489-556 | multiplication distributes over addition on the stored fields |
| `Fractions.OperationValues` | app/src/main/cpp/thirdparty/include/boost/rational.hpp:489-585 | sum, difference, product and quotient are the textbook fractions, in lowest terms |
| `Fractions.AddNegateCancels` | app/src/main/cpp/thirdparty/include/boost/rational.hpp:489-541 | subtracting undoes adding |
| `Fractions.MulDivCancels` | app/src/main/cpp/thirdparty/include/boost/rational.hpp:543-585 | dividing undoes multiplying |
| `Fractions.Trichotomy` | app/src/main/cpp/thirdparty/include/boost/rational.hpp:346-350 | exactly one of `<`, `==`, `>` holds |
| `Fractions.LessTransitive` | app/src/main/cpp/thirdparty/include/boost/rational.hpp:346-350 | the order is transitive |
| `Fractions.LessAdd` | app/src/main/cpp/thirdparty/include/boost/rational.hpp:739-821 | the order is kept, both ways, by adding the same fraction |
| `Fractions.LessMul` | app/src/main/cpp/thirdparty/include/boost/rational.hpp:739-821 | the order is kept, both ways, by multiplying with the same positive fraction |
| `Fractions.LessOfRepresented` | app/src/main/cpp/thirdparty/include/boost/rational.hpp:739-821 | any representation with positive denominators gives the same order |
| `QuickArithmetic.QuickSumIsAdd` | app/src/main/cpp/thirdparty/include/boost/rational.hpp:489-522 | the two small gcds of `+=` already leave lowest terms, with the exact sum |
| `QuickArithmetic.SumIntermediates` | app/src/main/cpp/thirdparty/include/boost/rational.hpp:514-519 | the intermediate numerator is the value times lcm(b,d) and the final denominator divides lcm(b,d) |
| `QuickArithmetic.SumNumeratorMayOverflow` | app/src/main/cpp/thirdparty/include/boost/rational.hpp:492-517 | inputs, in 8 and in 32 bits, whose sum fits while the numerator on the way does not |
| `QuickArithmetic.SumProductsMayOverflow` | app/src/main/cpp/thirdparty/include/boost/rational.hpp:516-516 | inputs whose sum, numerator and denominators fit while both products do not |
| `QuickArithmetic.QuickProductIsMul` | app/src/main/cpp/thirdparty/include/boost/rational.hpp:543-556 | cross-cancelling leaves lowest terms, with the exact product |
| `QuickArithmetic.ProductOverflowsOnlyWithAnswer` | app/src/main/cpp/thirdparty/include/boost/rational.hpp:550-554 | cancelled factors fit the operand range, and each product fits iff the answer's field does |
| `QuickArithmetic.SumStepsExact` | app/src/main/cpp/thirdparty/include/boost/rational.hpp:492-519 | exactly when no step of `+=` overflows, from the operands, the gcd of the denominators and the bounds |
| `QuickArithmetic.DifferenceStepsExact` | app/src/main/cpp/thirdparty/include/boost/rational.hpp:531-538 | the same for `-=` |
| `QuickArithmetic.OneSignSumDecides` | app/src/main/cpp/thirdparty/include/boost/rational.hpp:514-519 | with numerators of one sign the cross-multiplied sum and denominator decide alone |
| `QuickArithmetic.QuickQuotientIsDiv` | app/src/main/cpp/thirdparty/include/boost/rational.hpp:574-583 | `/=` leaves lowest terms with a positive denominator, with the exact quotient |
| `QuickArithmetic.QuotientOverflowsOnlyWithAnswer` | app/src/main/cpp/thirdparty/include/boost/rational.hpp:575-583 | the products of `/=` are the answer's fields, both negated for a negative divisor, and fit iff those do |
| `Rationals.Rational.Make` | app/src/main/cpp/thirdparty/include/boost/rational.hpp:159-164 | construction gives the fraction n/d in lowest terms, and fails exactly for a zero denominator |
| `Rationals.Rational.Normalize` | app/src/main/cpp/thirdparty/include/boost/rational.hpp:838-873 | the fields become the lowest terms of the same fraction |
| `FixedWidth.FixedRational.Normalize` | app/src/main/cpp/thirdparty/include/boost/rational.hpp:838-873 | in a type of fixed width: exactly when an exception is thrown, and exactly when the result is not the lowest terms of the fraction |
| `FixedWidth.OutOfRangeExact` | app/src/main/cpp/thirdparty/include/boost/rational.hpp:857-870 | a denominator is singular, or a sign is lost, exactly when the denominator, or numerator, of the lowest terms does not fit |
| `FixedWidth.FixedGcd` | app/src/main/cpp/thirdparty/include/boost/integer/common_factor_rt.hpp:444-452 | the recursion that removes the most negative value ends with the gcd, which fits the type |
| `FixedWidth.GcdDefinedExact` | app/src/main/cpp/thirdparty/include/boost/integer/common_factor_rt.hpp:444-452 | exactly which pairs keep every `%` of the recursion defined, with operands promoted to a wider type or not; the most negative value with itself never does |
| `FixedWidth.EightBitExamples` | app/src/main/cpp/thirdparty/include/boost/rational.hpp:854-870 | concrete pairs whose sign is lost, one of them only where operands are promoted, and one whose denominator is singular |
| `FixedWidth.FixedRational.AddAssign` | app/src/main/cpp/thirdparty/include/boost/rational.hpp:489-522 | in a type of fixed width `+=` goes through exactly when all its steps fit, and then gives the sum |
| `FixedWidth.FixedRational.SubtractAssign` | app/src/main/cpp/thirdparty/include/boost/rational.hpp:524-541 | the same for `-=` and the difference |
| `Rationals.Rational.AddAssign` | app/src/main/cpp/thirdparty/include/boost/rational.hpp:489-522 | exact sum, by cross-multiplication, in lowest terms, also when added to itself; the denominator divides lcm of the old ones |
| `Rationals.Rational.SubtractAssign` | app/src/main/cpp/thirdparty/include/boost/rational.hpp:524-541 | exact difference in lowest terms |
| `Rationals.Rational.MultiplyAssign` | app/src/main/cpp/thirdparty/include/boost/rational.hpp:543-556 | exact product in lowest terms |
| `Rationals.Rational.DivideAssign` | app/src/main/cpp/thirdparty/include/boost/rational.hpp:558-585 | exact quotient in lowest terms; division by zero is rejected and changes nothing |
| `Rationals.Rational.AddInt` | app/src/main/cpp/thirdparty/include/boost/rational.hpp:266-271 | agrees with adding i/1 |
| `Rationals.Rational.SubtractInt` | app/src/main/cpp/thirdparty/include/boost/rational.hpp:272-277 | agrees with subtracting i/1 |
| `Rationals.Rational.MultiplyInt` | app/src/main/cpp/thirdparty/include/boost/rational.hpp:278-286 | agrees with multiplying by i/1 |
| `Rationals.Rational.DivideInt` | app/src/main/cpp/thirdparty/include/boost/rational.hpp:287-307 | agrees with dividing by i/1; zero is rejected |
| `Rationals.Rational.Increment` | app/src/main/cpp/thirdparty/include/boost/rational.hpp:310-310 | adds one in lowest terms |
| `Rationals.Rational.Decrement` | app/src/main/cpp/thirdparty/include/boost/rational.hpp:311-311 | subtracts one in lowest terms |
| `Rationals.Rational.Equal` | app/src/main/cpp/thirdparty/include/boost/rational.hpp:823-828 | comparing fields decides equality of value |
| `Rationals.Rational.EqualInt` | app/src/main/cpp/thirdparty/include/boost/rational.hpp:374-378 | decides equality with an integer |
| `Rationals.Rational.LessThanInt` | app/src/main/cpp/thirdparty/include/boost/rational.hpp:352-368 | comparing the floor decides num < i*den |
| `Rationals.Rational.GreaterThanInt` | app/src/main/cpp/thirdparty/include/boost/rational.hpp:369-373 | decides i*den < num |
| `Rationals.Rational.LessThan` | app/src/main/cpp/thirdparty/include/boost/rational.hpp:739-821 | terminates, returns exactly num*r.den < r.num*den, and is decided in the first round in which quotients differ or an expansion ends |
| `Rationals.Rational.FirstCycle` | app/src/main/cpp/thirdparty/include/boost/rational.hpp:754-767 | truncated division and the fix-up loop give floor and nonnegative remainder |
| `ContinuedFractions.ExpansionFits` | app/src/main/cpp/thirdparty/include/boost/rational.hpp:752-796 | every value of the expansion, the negative-remainder fix-up included, stays in any range holding the operands and zero |
| `ContinuedFractions.DecidedByQuotients` | app/src/main/cpp/thirdparty/include/boost/rational.hpp:775-781 | the first differing quotients decide, reversed in odd rounds |
| `ContinuedFractions.DecidedAtEnd` | app/src/main/cpp/thirdparty/include/boost/rational.hpp:798-816 | when an expansion ends with equal quotients, the remainders decide |
| `ContinuedFractions.NextRound` | app/src/main/cpp/thirdparty/include/boost/rational.hpp:783-795 | with equal quotients the order of the values is the reversed order of the next cycles |
| `RationalGcd.AlreadyReduced` | app/src/main/cpp/thirdparty/include/boost/rational.hpp:970-996 | the pairs passed to the constructor are in lowest terms |
| `RationalGcd.GcdEvaluatorUniversal` | app/src/main/cpp/thirdparty/include/boost/rational.hpp:970-982 | the rational common divisors are exactly the divisors of the gcd |
| `RationalGcd.LcmEvaluatorUniversal` | app/src/main/cpp/thirdparty/include/boost/rational.hpp:984-996 | the rational common multiples are exactly the multiples of the lcm |
| `RationalGcd.EvaluatorsDivide` | app/src/main/cpp/thirdparty/include/boost/rational.hpp:970-996 | the gcd divides both operands with integer quotients, both divide the lcm |
| `RationalGcd.GcdTimesLcm` | app/src/main/cpp/thirdparty/include/boost/rational.hpp:962-996 | gcd times lcm is the absolute value of the product |
| `EscapedList.EscapedListSeparator.DoEscape` | app/src/main/cpp/thirdparty/include/boost/token_functions.hpp:126-148 | consumes one escape sequence or throws the right exception |
| `EscapedList.EscapedListSeparator.Next` | app/src/main/cpp/thirdparty/include/boost/token_functions.hpp:161-198 | each call delivers the next field of the one-pass reading, the trailing empty one included |
| `EscapedList.ReadFields` | app/src/main/cpp/thirdparty/include/boost/token_functions.hpp:126-198 | a text put together from characters, escape sequences, quoted stretches and separators is read as the fields it was put together from, in order |
| `EscapedList.ReadWritten` | app/src/main/cpp/thirdparty/include/boost/token_functions.hpp:126-198 | written fields come back, quoted or not, with newlines for the `n`s that had to be escaped |
| `EscapedList.RoundTripExact` | app/src/main/cpp/thirdparty/include/boost/token_functions.hpp:127-198 | all lists of fields written with escapes, between quotes or not, are read back iff `n` needs no escape |
| `EscapedList.FailureAndCount` | app/src/main/cpp/thirdparty/include/boost/token_functions.hpp:126-198 | an exception occurs exactly on ill-formed escapes; otherwise there is one field more than bare separators |
| `EscapedList.WhichError` | app/src/main/cpp/thirdparty/include/boost/token_functions.hpp:126-148 | which of the two exceptions the first ill-formed escape causes, and that the fields before it are delivered |
| `CharSeparators.CharSeparator.Next` | app/src/main/cpp/thirdparty/include/boost/token_functions.hpp:457-527 | under either policy each call takes the next token off the split text |
| `CharSeparators.CharSeparator.NextDropping` | app/src/main/cpp/thirdparty/include/boost/token_functions.hpp:468-489 | without empty tokens: the next non-empty field or kept delimiter |
| `CharSeparators.CharSeparator.NextKeeping` | app/src/main/cpp/thirdparty/include/boost/token_functions.hpp:490-524 | with empty tokens: the field or kept delimiter that `m_output_done` says is next |
| `CharSeparators.CharSeparator.constructor` | app/src/main/cpp/thirdparty/include/boost/token_functions.hpp:433-446 | the delimiters are the two strings; a character in both is kept only if empty tokens are |
| `CharSeparators.CharSeparator.Default` | app/src/main/cpp/thirdparty/include/boost/token_functions.hpp:448-453 | by default punctuation is kept and white space dropped |
| `CharSeparators.CharDelimitersSeparator.constructor` | app/src/main/cpp/thirdparty/include/boost/token_functions.hpp:607-613 | each kind of delimiter is the given string, or without one the locale's class; those not returned are dropped |
| `CharSeparators.CharDelimitersSeparator.Next` | app/src/main/cpp/thirdparty/include/boost/token_functions.hpp:619-645 | each call takes the next non-empty token off the split text |
| `CharSeparators.DeprecatedEquivalent` | app/src/main/cpp/thirdparty/include/boost/token_functions.hpp:607-645 | with explicit delimiters the deprecated separator yields the tokens of a dropping `char_separator` |
| `CharSeparators.DefaultsEquivalent` | app/src/main/cpp/thirdparty/include/boost/token_functions.hpp:448-453 | so do the defaults by character class, when delimiters are returned |
| `Tokens.DeliveredUnique` | app/src/main/cpp/thirdparty/include/boost/token_functions.hpp:278-307 | the tokens to come fix a call's outcome, so the `assign` and `+=` policies deliver the same |
| `CharFields.SplitWeave` | app/src/main/cpp/thirdparty/include/boost/token_functions.hpp:490-524 | splitting recovers exactly the plain fields and kept delimiters a text is woven from |
| `CharFields.SplitCount` | app/src/main/cpp/thirdparty/include/boost/token_functions.hpp:490-524 | one token plus one per dropped and two per kept delimiter |
| `CharFields.SplitConcat` | app/src/main/cpp/thirdparty/include/boost/token_functions.hpp:490-524 | the tokens concatenate to the text without its dropped delimiters |
| `CharFields.NonEmptyConcat` | app/src/main/cpp/thirdparty/include/boost/token_functions.hpp:475-489 | dropping empty tokens loses none of the text |
| `CharFields.NonEmptyFilters` | app/src/main/cpp/thirdparty/include/boost/token_functions.hpp:465-489 | exactly the empty tokens are dropped |
| `OffsetSeparators.OffsetSeparator.Next` | app/src/main/cpp/thirdparty/include/boost/token_functions.hpp:366-405 | each call takes the next piece; without a positive offset to wrap to it stays in place |
| `OffsetSeparators.OffsetSeparator.FirstTokens` | app/src/main/cpp/thirdparty/include/boost/token_functions.hpp:383-404 | in that case any number of calls yields empty tokens only |
| `OffsetSeparators.WrappedConcat` | app/src/main/cpp/thirdparty/include/boost/token_functions.hpp:383-404 | wrapping pieces concatenate to the text |
| `OffsetSeparators.UnwrappedConcat` | app/src/main/cpp/thirdparty/include/boost/token_functions.hpp:383-404 | without wrapping they concatenate to the text up to the sum of the offsets |
| `OffsetSeparators.PieceLengths` | app/src/main/cpp/thirdparty/include/boost/token_functions.hpp:391-404 | piece k has length offsets[k mod n], only the last may be shorter, by at most one without `return_partial_last` |
| `OffsetSeparators.ShortPieceExact` | app/src/main/cpp/thirdparty/include/boost/token_functions.hpp:391-404 | without `return_partial_last`, a short piece is delivered iff the text ends one character before the offset it ends inside |
| `OffsetSeparators.NothingLostExact` | app/src/main/cpp/thirdparty/include/boost/token_functions.hpp:391-404 | the pieces concatenate to the text iff the offsets reach its end and it ends inside an offset only one character short of it |
| `OffsetSeparators.LastPiece` | app/src/main/cpp/thirdparty/include/boost/token_functions.hpp:391-404 | when the text ends inside offset k there are k full pieces, and one more iff it is one character short; otherwise the rest is lost |
| `OffsetSeparators.SingleOffsetExact` | app/src/main/cpp/thirdparty/include/boost/token_functions.hpp:391-404 | with one wrapping offset c > 1 nothing is lost iff the length is 0 or c - 1 modulo c |
| `TokenIterators.CopyOf` | app/src/main/cpp/thirdparty/include/boost/token_iterator.hpp:79-80 | passing a functor by value: a separate object with the same tokens to come |
| `TokenIterators.TokenIterator.constructor` | app/src/main/cpp/thirdparty/include/boost/token_iterator.hpp:70-80 | a new iterator, on its own copy of the functor, has all tokens of the text pending, none for an empty text |
| `TokenIterators.TokenIterator.Apply` | app/src/main/cpp/thirdparty/include/boost/token_iterator.hpp:53-56 | one call of whichever functor, on the iterator's own fields; after an exception `valid_` keeps its value |
| `TokenIterators.TokenIterator.TokenizerFunction` | app/src/main/cpp/thirdparty/include/boost/token_iterator.hpp:96-96 | a copy of the functor with the memory it has now |
| `TokenIterators.WholeSplitExact` | app/src/main/cpp/thirdparty/include/boost/token_iterator.hpp:70-75 | an iterator of a keeping `char_separator` yields the whole split iff the functor has not just delivered a field or the text does not start with a delimiter |
| `TokenIterators.SplitWithUsedFunctor` | app/src/main/cpp/thirdparty/include/boost/token_iterator.hpp:70-96 | a functor taken from a finished iterator loses exactly the leading empty field of the next text |
| `TokenIterators.TokenIterator.Increment` | app/src/main/cpp/thirdparty/include/boost/token_iterator.hpp:53-56 | the current token leaves, the rest stays pending; the position never goes back, and stays exactly when the next token is delivered in place, which is then empty |
| `TokenIterators.IncrementOne` | app/src/main/cpp/thirdparty/include/boost/token_iterator.hpp:53-68 | exactly when an iterator compares equal to one at the next token |
| `TokenIterators.EqualAtEnd` | app/src/main/cpp/thirdparty/include/boost/token_iterator.hpp:63-68 | if one of two iterators of a text has ended, they are equal iff neither or both have tokens to come |
| `TokenIterators.EqualAtDifferentTokens` | app/src/main/cpp/thirdparty/include/boost/token_iterator.hpp:63-68 | two valid iterators at the tokens "a" and "" of one text that compare equal |
| `TokenIterators.TokenIterator.CollectUntil` | app/src/main/cpp/thirdparty/include/boost/token_iterator.hpp:53-75 | the loop that compares with an end iterator ends, by equality or by the exception, with exactly the pending tokens |
| `TokenIterators.Tokenizer.All` | app/src/main/cpp/thirdparty/include/boost/tokenizer.hpp:86-87 | from `begin()` to `end()` exactly the tokens of the text come, and the exception if there is one |
| `TokenIterators.WriteAndRead` | app/src/main/cpp/thirdparty/include/boost/token_iterator.hpp:53-80 | written fields come back through the iterator, quoted or not, except that a single empty unquoted field is no field |
| `TokenIterators.SplitKeeping` | app/src/main/cpp/thirdparty/include/boost/token_iterator.hpp:53-80 | the tokens of a whole iteration keeping empty tokens, their number and their concatenation |
| `TokenIterators.SplitDropping` | app/src/main/cpp/thirdparty/include/boost/token_iterator.hpp:53-80 | the tokens of a whole iteration of a dropping `char_separator`, for given delimiters |
| `TokenIterators.SplitByClass` | app/src/main/cpp/thirdparty/include/boost/token_functions.hpp:448-453 | the same for the default `char_separator` |
| `TokenIterators.SplitDeprecated` | app/src/main/cpp/thirdparty/include/boost/token_functions.hpp:607-645 | the same for the deprecated separator, with its delimiters given or by class, returned or not |
| `TokenIterators.SplitByDefault` | app/src/main/cpp/thirdparty/include/boost/tokenizer.hpp:27-56 | a tokenizer without arguments splits at punctuation and white space and keeps neither |
| `TokenIterators.SplitByOffsets` | app/src/main/cpp/thirdparty/include/boost/token_functions.hpp:366-405 | the tokens of a whole iteration by offsets: all but the last as long as the offsets in turn, all of the text when wrapping and keeping a short last piece |

## Left out

- Integer widths in the methods of `Rational`: their integers are unbounded. Width is modelled for `normalize` and `gcd` (`FixedWidth`, with negation that wraps, for arguments on which `gcd` itself is defined), by `+=` and `-=` (`FixedWidth`), and by the exact range results about `operator<`, `*=` and `/=`; the mixed operations with an integer have none.
- `rational` stream operators, `rational_cast`, converting constructors between integer types and the overload selection: formatting, floating point and compile-time dispatch.
- Binary operators of `rational`, postfix increment, unary minus as a constructor call and the derived comparisons: one-line wrappers around the modelled operations.
- `Stein_gcd`, `Euclid_gcd` and the bit-scan versions of `make_odd`: not selected for built-in signed types, or the same function by an intrinsic.
- The classes take what C++ fixes at compile time (types, template parameters) as values; the one static table per template instance is an object passed to the engine.
- `crc_optimal::operator()` and `process_bytes`: renamings of modelled members. The loop bodies of `init_table` and `process_block`, and the two first cycles of `operator<`, are methods of their own.
- `crc_basic::process_bits` with more than 8 bits and `augmented_crc` with fewer than 8: the shift counts are out of range in C++, so the preconditions exclude them.
- The numeric residues of particular standards, such as the one in Appendix C.3 of RFC 1662: the residue is proved constant, not evaluated.
- Locale classes behind `isspace` and `ispunct`: arbitrary predicates.
- `token_iterator::base` and the converting constructor, comparing iterators into different texts (undefined in C++), and advancing an iterator again after catching its exception.
- `tokenizer::assign` and the constructors from containers: they store their arguments.
- An offset_separator without offsets: excluded by the source's own assertion.
