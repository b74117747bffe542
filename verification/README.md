# A verified model of the assembler and archiver in cctools

This project models five parts of the repository and proves what they are for.

**Floating point (`cctools/as/flonum-*.c`, `atof-generic.c`, `atof-ieee.c`).** A
flonum is an array of 16-bit littlenums with an index of its highest one and an
exponent. `FlonumMult` and `FlonumCopy` work in place on such arrays,
`DecimalScan`, `DigitAccumulation`, `PowerOfTen` and `AtofGeneric` turn text into
one, `BitStream` and `GenToWords` turn one into the words of a float or a double, and
`AtofIeee` puts the two together. `ErrorBound` bounds the error of the whole way.
The specification is in numbers: floors of products, floors of decimal values, and
the definition of roundTiesToAway (section 4.3.1 of IEEE 754-2008) over the
interchange encoding (section 3.4), defined in `IeeeFormat` without regard to how
the code rounds.

**Expressions (`cctools/as/expr.c`).** `ExprParser` is the parser, with its input
pointer and the result objects it overwrites; `ExprGrammar` and `ExprQuantity` are
what it reads and computes; `ExprPrinter` prints trees, `ExprTheorems` proves that
the parser undoes it, and `ExprMeaning` what the results mean; `ExprArithmetic` says
what each operator does, as relations between numbers, and `ExprReading` how
expressions are read without the parser's tables.

**The hash table (`cctools/as/hash.c`).** `HashTable` has the linked entries and
the array of chains on the heap; `HashRuns` refines a plain map.

**The archive (`cctools/ar`).** `ArFile` is a file with a cursor. The header code,
the copy loop and the three rewriting commands are proved, for every file,
against functions over bytes (`ArHeader`, `ArCopy`, `ArMembers`, `ArDelete`,
`ArMove`, `ArReplace`); `ArTheorems` and `ArReplaceTheorems` say what these do to
the list of members, and `ArAssignment` which argument goes with which member.

**The i386 back end (`cctools/as/i386.c`) and the scrubber (`cctools/as/app.c`).**
`I386Insn` checks and encodes memory operands, `I386Immediate` immediates,
`I386Branch` relaxed branches; `I386Decode` is an independent decoder, from which
`I386Encodable` tells what can be encoded and `I386Shortest` in how many bytes. `Scrubber`
is the character filter in front of the parser; `ScrubberText` says what a text
comes out as, and what becomes of its newlines, without the filter's states.

The host has 32-bit `int` and 64-bit `long`, and `NeXT_MOD` is defined. Files are
verified together: `dafny verify dfyconfig.toml`.

Where the code does not do what one would expect, the exact condition is proved,
and an input is given for which it fails:
a multiplication can lose its only nonzero littlenum
(`FlonumMultTheorems.LeaderNonzeroIff`), long small decimals read as zero
(`AtofGeneric.LostToZeroIff`), some encodings are wrong
(`GenToWordsTheorems.RoundsCorrectlyIff`, `GenToWordsExamples`), a unary minus forgets the number
(`ExprMeaning.LinearRoundTripIff`), archive copies can shift a body
(`ArEncoding.CopyFaithfulIff`, `ArHeaderTheorems.MisalignedMember`), 64-bit
displacements are folded (`I386Insn.Insn.Assemble`, `I386Insn.DisplacementSignLost`),
a newline can be swallowed as a character constant
(`Scrubber.Scrub.Run`, `ScrubberText.ConstantSwallowed`), and one after a backslash
in a string is not turned into the escape that the comment at
`cctools/as/app.c:246` announces (`ScrubberText.EscapedNewline`).

## Model

| member | source | states |
|---|---|---|
| FlonumMult.FlonumMultip | cctools/as/flonum-mult.c:76-198 | unless a sign is neither + nor -, which only sets the sign of the product to 0, the product holds floor(Ma * Mb / R^k), where k is what its exponent exceeds the sum of the exponents by and is fixed by the number of columns, the capacity and the low zeros of the product; every littlenum stored and the carry fit |
| FlonumMult.EmitColumns | cctools/as/flonum-mult.c:119-162 | the scan over the columns leaves the columns from the first one kept on, having dropped those below the array and then skipped the zeros; the carry out is what is left of the whole product |
| FlonumMult.Column | cctools/as/flonum-mult.c:125-145 | one column: the littlenum left and the carry into the next add up to the carry in and all products of the column, and stay far inside 64 bits |
| FlonumMult.PlaceCarry | cctools/as/flonum-mult.c:170-197 | the final carry becomes the leader where there is a free position; otherwise the littlenums move down one and the exponent grows by one |
| FlonumMult.ShiftRight | cctools/as/flonum-mult.c:181-189 | the in-place shift drops the lowest littlenum and puts the carry on top |
| Convolution.ColsProduct | cctools/as/flonum-mult.c:103-162 | the columns, weighted by their places, sum to the product of the two mantissas |
| FlonumMultTheorems.ExactWithRoom | cctools/as/flonum-mult.c:109-118 | with more positions than columns the truncation divides the product: nothing is lost |
| FlonumMultTheorems.ExactIff | cctools/as/flonum-mult.c:109-197 | the product is kept whole if and only if the columns below the array are zero and a carry littlenum, if any, finds a free position |
| FlonumMultTheorems.FullWhenInexact | cctools/as/flonum-mult.c:109-197 | the error is below one unit of the low littlenum, and when a dropped column is not zero the whole capacity is used |
| FlonumMultTheorems.LeaderNonzeroIff | cctools/as/flonum-mult.c:145-197 | factors with nonzero leaders give a product with a nonzero leader if and only if it is not the case that all columns are zero, the carry is not, and the array is at most half as long as the columns |
| FlonumMultTheorems.CarryLost | cctools/as/flonum-mult.c:170-197 | a concrete product of nonzero factors that comes out as zero |
| FlonumMultTheorems.ProductsAreIntsIff | cctools/as/flonum-mult.c:137 | every product of two littlenums is an int, as the C multiplication needs, if and only if that of the two largest is |
| FlonumCopy.Copy | cctools/as/flonum-copy.c:24-74 | the copy is floor(mantissa / R^s) with the exponent raised by s, s being the littlenums that do not fit; a zero keeps the old exponent |
| DecimalScan.ScanNumber | cctools/as/atof-generic.c:129-220 | the counters of the scan describe the same number as the grammar of the text: same end, same value, no leading zero counted, no trailing zero of the fraction counted |
| DecimalNotation.NotationRead | cctools/as/atof-generic.c:129-220 | every decimal notation, with or without point, fraction, exponent and its sign, is read as the digits, the places and the exponent that it shows, and nothing after it is |
| DigitRoom.RoomForDigits | cctools/as/atof-generic.c:269-275 | 10^n never exceeds R to the number of littlenums allocated for n digits |
| DigitAccumulation.MultiplyByTen | cctools/as/atof-generic.c:329-339 | the pass over the array multiplies the number in it by ten and adds the digit, the excess being the carry |
| DigitAccumulation.Accumulate | cctools/as/atof-generic.c:277-354 | the array ends up holding exactly the integer that the digits used spell; the call of abort is never reached |
| PowerOfTen.ComputePower | cctools/as/atof-generic.c:424-489 | the loop leaves the chain of truncated multiplications by the table entries of the set bits, and reports an overflow if and only if the exponent is at least 2^11 |
| PowerOfTen.MultiplyInto | cctools/as/atof-generic.c:479-480 | one multiplication into the temporary and back is one truncated step |
| PowerOfTenTheorems.ChainExactly | cctools/as/atof-generic.c:424-489 | the exact product of the table entries equals the computed mantissa with its dropped littlenums put back plus what it lacks, a natural number composed of the truncations of the steps |
| PowerOfTenTheorems.ChainExponent | cctools/as/atof-generic.c:424-489 | the exponent of a nonzero result is the sum of the exponents picked plus the littlenums dropped |
| PowerOfTenTheorems.ChainExactWithRoom | cctools/as/atof-generic.c:424-489 | when every partial product fits nothing is lost |
| AtofGeneric.ConvertText | cctools/as/atof-generic.c:63-502 | every text is read as a NaN, an infinity or a number; end of text, sign and error code are those of the grammar, and the value is the truncated product of the digits used and the computed power of ten |
| AtofGeneric.CutDigits | cctools/as/atof-generic.c:249-267 | with D the integer read and e the adjusted exponent, D is the floor of the number in the text over 10^e, and equal to it when no digits are cut |
| AtofGeneric.LostToZeroIff | cctools/as/atof-generic.c:139-183 | a nonzero number is read as zero if and only if there is no significant digit before the point and at least as many zeros follow the point as digits are used |
| AtofGeneric.SmallNumberLost | cctools/as/atof-generic.c:139-183 | concrete: 0.00...01 with 21 zeros or more, as it is scanned, has 21 useful digits in a double, all of them zero |
| BitStream.Reader.NextBits | cctools/as/atof-ieee.c:81-107 | returns the next bits of the mantissa from the top, zeros after its end, and leaves the bits below them unread |
| BitStream.Reader.UngetBits | cctools/as/atof-ieee.c:110-125 | while littlenums are left, the bits given back are the next to be read and after them comes what came before; after the last littlenum, what is to come are the low bits of the littlenum above instead |
| BitStream.NextIsTop | cctools/as/atof-ieee.c:81-107 | the masks and shifts over one or two littlenums pick the top bits of the number that is still unread |
| BitStreamTheorems.ReadsConsecutiveBits | cctools/as/atof-ieee.c:81-107 | any sequence of reads, joined, is the top of the mantissa, followed by zeros |
| BitStreamTheorems.UngetRestoresIff | cctools/as/atof-ieee.c:81-125 | giving bits back right after reading them restores the state if and only if the read left littlenums unread |
| IeeeRounding.CorrectIsNearest | cctools/as/atof-ieee.c:316-336 | the kept bits plus the first bit not kept, with overflow to infinity and underflow to zero, are the roundTiesToAway encoding of every number, normal or subnormal |
| GenToWords.SeekFirstBit | cctools/as/atof-ieee.c:316-321 | the search for the first significant bit ends, just after it, for every nonzero mantissa |
| GenToWords.RoundUp | cctools/as/atof-ieee.c:522-526 | the carry loop adds one to the words read as one number, modulo their size |
| GenToWords.WriteNormal | cctools/as/atof-ieee.c:484-537 | the words are the sign, the biased exponent and the kept bits, plus the round bit carried through fraction and exponent, with the sign bit cleared should the carry reach it |
| GenToWords.WriteDenormal | cctools/as/atof-ieee.c:338-457 | the words of a subnormal number, the carry being lost out of the last word when exactly 16 bits are kept, or an infinity when the number is too small for the code |
| GenToWords.ToWords | cctools/as/atof-ieee.c:243-538 | zero, NaN, both infinities and every finite number leave the words stated for them; the search for the first bit runs on exactly when there are littlenums and all are zero |
| GenToWordsTheorems.RoundsCorrectlyIff | cctools/as/atof-ieee.c:316-336 | the words are the roundTiesToAway encoding, sign included, if and only if the biased exponent is not the all-ones value (unless the fraction is zero and is not rounded up), a subnormal is not too small, its carry is not lost, and the given-back bit of a mantissa of 1 is not read from an even littlenum above |
| GenToWordsExamples.OverflowToNan | cctools/as/atof-ieee.c:458 | concrete: 1.5 * 2^128 becomes the float 7fc00000, a NaN |
| GenToWordsExamples.CarryDropped | cctools/as/atof-ieee.c:448-450 | concrete: (2^17 - 1) * 2^-150 becomes zero |
| GenToWordsExamples.TinyToInfinity | cctools/as/atof-ieee.c:350-370 | concrete: 2^-157 becomes an infinity |
| GenToWordsExamples.OnlyBitDropped | cctools/as/atof-ieee.c:342 | concrete: 2^-128 from a mantissa of 1 under an even littlenum becomes zero |
| GenToWordsTheorems.BelowMaximum | cctools/as/atof-ieee.c:484-526 | for every biased exponent from 1 to 2^eb - 2 the words are the correctly rounded code, including the carry into the exponent and up to infinity |
| GenToWordsTheorems.DenormalCorrectIff | cctools/as/atof-ieee.c:338-457 | a subnormal is rounded correctly if and only if it is not too small for the code and no carry is lost |
| AtofIeee.Convert | cctools/as/atof-ieee.c:152-240 | for every text the words are those of the NaN, the infinity, the zero or the number it spells, and an infinity when the exponent is too large for the tables, of either sign; the sign is that of a minus in front, and at most 11 or 21 digits are used; no text makes the search for the first bit run on |
| AtofIeee.ProductNormal | cctools/as/atof-generic.c:424-502 | the product of digits and power of ten is zero or has a nonzero leader, whatever was truncated on the way |
| AtofIeee.UsefulDigitsRoom | cctools/as/atof-generic.c:254-275 | the digits that are used always fit the destination, guard littlenums included |
| AtofIeee.WholeNumbersRound | cctools/as/atof-ieee.c:316-336 | a decimal integer that needs no power of ten becomes the words of its roundTiesToAway value, always within the normal range |
| AtofIeee.FormatDigits | cctools/as/atof-generic.c:254-267 | a float uses at most 11 digits and a double 21 |
| AtofIeee.IntegersRound | cctools/as/atof-ieee.c:207-240 | from text to words: any notation of an integer with at most 11 significant digits for a float and 21 for a double that leaves no power of ten is converted to the correctly rounded words |
| ErrorBound.ChainWithin | cctools/as/atof-generic.c:424-489 | the computed power of ten is the true one up to one factor for the accuracy of the tables and one of 1 + R^(1 - capacity) for each bit set in the exponent, when every product is exact or fills its array |
| ErrorBound.TextToWords | cctools/as/atof-ieee.c:207-240 | from text to words: the words are the roundTiesToAway encoding of a number within a closed factor of the one the text spells, made of the accuracy of the tables, the products for the bits of the exponent, the last product, and what cutting to 11 digits for a float and 21 for a double costs: nothing for as many, one part in 10^10 or 10^20 for more when the first is not zero |
| ExprText.ScanNumber | cctools/as/expr.c:764-775 | the digit loop stops at the first character that is no digit of the base and has accumulated the number in 64 bits |
| ExprText.IgnoreSuffix | cctools/as/expr.c:1507-1528 | exactly a suffix LL or ULL is passed over |
| ExprParser.Parser.CombinePart | cctools/as/expr.c:1184-1274 | what stays of two symbols in one place, in which segment, and the warning when both are defined |
| ExprParser.Parser.AddTo | cctools/as/expr.c:431-503 | the in-place sum of two results equals the sum of their values, with the same warnings |
| ExprArithmetic.CalculateYields | cctools/as/expr.c:530-644 | every operator does to two 64-bit constants what it says: truncated quotient and remainder of the sign of the dividend, products, sums and shifts modulo 2^64, right shifts that floor, 0 or 1 for relations and logical operators, and bit by bit for the others |
| ExprArithmetic.UnaryIsRight | cctools/as/expr.c:1044-1062 | so do minus, complement and logical not |
| ExprArithmetic.YieldsUnique | cctools/as/expr.c:530-644 | those relations leave one result for every operator and every two constants |
| ExprParser.Parser.Apply | cctools/as/expr.c:504-644 | the in-place operation equals the operation on values, and on constants yields what the operator says: constants only, division by zero gives 0 with a warning, a difference over 2 stays |
| ExprParser.Parser.Join | cctools/as/expr.c:354-645 | a missing right operand, bignums, subtraction by exchange and negation: the new result is the combination of both operands |
| ExprParser.Parser.Expr | cctools/as/expr.c:336-649 | the loop and its recursion read what the grammar says from the current position, leave the pointer where it says and give the same warnings; it always ends |
| ExprParser.Parser.Operand | cctools/as/expr.c:670-1100 | an operand, a space on either side, is read as the grammar says |
| ExprParser.Parser.WholeExpression | cctools/as/expr.c:297-317 | the segment returned differs from the one left in the result exactly when only a defined symbol is subtracted |
| ExprGrammar.StopsBeforeLowerRank | cctools/as/expr.c:331-332 | for every text, parsing to a rank stops before an operator of at most that rank, or before none |
| ExprPrinter.NumberReadBack | cctools/as/expr.c:771-775 | printed digits in any base are accumulated to their value modulo 2^64 |
| ExprTheorems.OperandParses | cctools/as/expr.c:651-1100 | every printed operand, nested ones included, is read back whole |
| ExprTheorems.ExpressionParses | cctools/as/expr.c:336-649 | parsing a printed tree to a rank below its own continues exactly after its text with its value as left operand: operators of one rank associate to the left |
| ExprMeaning.PrintedParses | cctools/as/expr.c:297-377 | a printed tree is consumed exactly, whatever is after it that neither continues it nor is an operator |
| ExprMeaning.EvalConstant | cctools/as/expr.c:530-644 | a tree of constants evaluates to a constant, the value that the relations of its operators give |
| ExprMeaning.ValueUnique | cctools/as/expr.c:530-644 | a tree of constants has one value |
| ExprMeaning.ParenthesizedFits | cctools/as/expr.c:247-263 | the parentheses that the ranks require make any tree printable |
| ExprMeaning.ConstantsRoundTrip | cctools/as/expr.c:262-377 | any tree of constants, printed with only the parentheses the rank table requires, is consumed exactly and yields the value that the relations of its operators give |
| ExprReading.Grouping | cctools/as/expr.c:247-263 | of two operators in a row the one that binds more tightly takes its operands first, and of two alike the left one, by a table of its own |
| ExprReading.NamesFit | cctools/as/expr.c:973-985 | letters, digits, underscores, dollar signs and dots are a name, unless a digit comes first or there is only a dot |
| ExprReading.NumbersFit | cctools/as/expr.c:764-775 | every number of 63 bits is a constant in decimal, hexadecimal and octal |
| ExprReading.EndsExpression | cctools/as/expr.c:319-335 | the end of the text, of a line or of a statement, a comma and a closing parenthesis end an expression |
| ExprMeaning.SumMeaning | cctools/as/expr.c:431-503 | without a warning the sum of two normal forms is a normal form whose meaning, under any values of the symbols, is the sum of theirs modulo 2^64 |
| ExprMeaning.TreeStands | cctools/as/expr.c:405-503 | a tree of sums, differences and negations that draws no warning evaluates to a normal form whose symbols are those of the tree that do not cancel, and whose number is the constant part of the tree, in which a minus on remaining symbols changes nothing |
| ExprMeaning.LinearMeaning | cctools/as/expr.c:405-503 | under all values of the symbols, such a tree differs from its normal form, modulo 2^64, by an error told from the tree alone: twice the constant part under each unary minus on remaining symbols, with its sign |
| ExprMeaning.LinearRoundTripIff | cctools/as/expr.c:405-503 | the text of such a tree is read as what it says if and only if those errors cancel |
| ExprMeaning.NoMinusNoError | cctools/as/expr.c:1063-1071 | without unary minus there is no such error |
| ExprMeaning.MinusOfSum | cctools/as/expr.c:1063-1070 | concrete: -(foo+4) is read as -foo+4 |
| HashString.ComputeHash | cctools/as/hash.c:151-160 | the loop computes the hash of the first len characters, in 32 and 64 bit arithmetic with sign extended characters |
| HashString.MatchesIff | cctools/as/hash.c:181 | the test made on an entry holds if and only if its string is the key |
| HashTable.HashControl.Lookup | cctools/as/hash.c:134-198 | the entry for the key, if there is one, is returned and is first in its chain, which is otherwise unchanged; every invariant of the table is kept |
| HashTable.HashControl.Relink | cctools/as/hash.c:183-188 | relinking three pointers moves one entry of one chain to its head and keeps the table valid |
| HashTable.HashControl.Insert | cctools/as/hash.c:205-229 | fails if the key is bound, and otherwise binds it |
| HashTable.HashControl.Jam | cctools/as/hash.c:235-268 | binds the key whether or not it was bound |
| HashTable.HashControl.Replace | cctools/as/hash.c:273-292 | rebinds a bound key and returns its old value; does nothing for another |
| HashTable.HashControl.Find | cctools/as/hash.c:297-307 | returns the value bound to the key; the bindings stay, though the chain may not |
| HashTable.HashControl.FindN | cctools/as/hash.c:312-322 | the same for a key given by its length |
| HashTable.HashControl.Delete | cctools/as/hash.c:327-351 | unbinds the key and returns its value; the call of abort is never reached |
| HashTable.HashControl.Traverse | cctools/as/hash.c:356-369 | sees every binding exactly once |
| HashTable.HashControl.FlattenedApart | cctools/as/hash.c:356-369 | no two entries reached from the buckets have the same key |
| HashRuns.Run | cctools/as/hash.c:205-351 | any run of operations gives the answers, and ends with the bindings, of a plain finite map; so what is answered for one key, and its binding in the end, depend only on the operations on that key, and searches can be left out |
| ArHeader.RNameOf | cctools/ar/misc.c:144-151 | a name without a slash is its own last component, and that of every path that ends in it after a slash |
| ArArgs.MatchesIff | cctools/ar/misc.c:119-161 | a path is matched by the name it ends in, all of it or what follows its last slash, and by no other |
| ArArgs.Files | cctools/ar/misc.c:119-133 | the first argument that ends in the name is returned, and removed from the vector in place, the others keeping their order; there is none just when no argument ends in it |
| ArAssignment.AssignedIff | cctools/ar/misc.c:119-133 | a member is matched if and only if fewer members before it bear its name than arguments do |
| ArAssignment.AssignedNth | cctools/ar/misc.c:119-133 | it uses the argument that is as far along among its namesakes as the member is |
| ArAssignment.LeftIff | cctools/ar/misc.c:119-133 | the arguments left over are, in order, those that are further along among their namesakes than there are members of the name |
| ArMembers.Archiver.GetArobj | cctools/ar/archive.c:217-276 | every position of every file is the end, a malformed header, or a header whose fields, name and length are as stated, the size being negative where the size field is below the length of the long name; the cursor is left after it |
| ArCopy.CopyAr | cctools/ar/archive.c:379-418 | copies the bytes, reads and writes the padding each side calls for, or fails because the file ends too early or the size is negative |
| ArMembers.Archiver.PutOld | cctools/ar/archive.c:316-363 | writes the header, name and body of the member read last |
| ArMembers.Archiver.SkipArobj | cctools/ar/archive.c:424-433 | moves to the end of the member and its padding, backwards for a negative size, and fails just when that is before the start of the file |
| ArMembers.Archiver.PutNew | cctools/ar/archive.c:284-363 | writes the member made of a file, under the last component of its path |
| ArHeaderTheorems.NewEntryReadsBack | cctools/ar/archive.c:300-363 | what is written for a file whose fields fit reads back with the same name, date, mode, size and owner (modulo 2^16), names of up to 16 characters without a space in place, others after the header in a multiple of four bytes |
| ArHeaderTheorems.HeaderExample | cctools/ar/archive.h:115-116 | concrete: the columns of a header under a short name and under a long one |
| ArHeaderTheorems.OwnerReads | cctools/ar/archive.h:115-116 | owner, group, mode and size, printed in their columns, are parsed to themselves |
| ArEncoding.MemberCopied | cctools/ar/archive.c:379-433 | a well-formed member is copied byte for byte, wherever it stands, and a skip ends where the copy does |
| ArEncoding.HeadersReadBack | cctools/ar/archive.c:217-276 | reading and skipping through the bytes of any list of members finds each header in turn and then the end |
| ArEncoding.CopyFaithfulIff | cctools/ar/archive.c:346-418 | a copy reproduces the bytes of a member if and only if its long name fills a multiple of four bytes and its padding is a newline, or the name is one short of that and body and padding are nothing but NULs, padding included; and it ends after the padding unless the body is empty |
| ArEncoding.CopySkipsIff | cctools/ar/archive.c:388-433 | where a copy succeeds it ends where a skip does, if and only if the body is not empty or the long name is even |
| ArHeaderTheorems.MisalignedMember | cctools/ar/archive.c:351-361 | concrete: a member of one byte under the long name abc is copied with a NUL before its body |
| ArDelete.Delete | cctools/ar/delete.c:76-123 | for every file: a malformed archive is left alone; otherwise it becomes the magic string and what the filter keeps, and the arguments not matched are left |
| ArTheorems.DeleteMeaning | cctools/ar/delete.c:95-123 | exactly the members matched by an argument are gone; the rest keep order and bytes, and form a well-formed archive |
| ArMove.Move | cctools/ar/move.c:85-168 | for every file: the archive becomes its three parts joined, and is left alone if malformed or if the key is not found |
| ArTheorems.MoveMeaning | cctools/ar/move.c:99-168 | the selected members form one block, in archive order, at the end or next to the key, which is sought among the others only; the new list is a permutation of the old |
| ArReplace.Replace | cctools/ar/replace.c:82-207 | for every file, with or without -u: the two halves joined after the additions; left alone if malformed or if the key is not found; the return value tells of files that could not be opened |
| ArReplace.Create | cctools/ar/replace.c:100-104 | without an archive one is created of the readable files, except that -a or -b make the first of them fail |
| ArReplaceTheorems.ReplaceMeaning | cctools/ar/replace.c:125-207 | each matched member gives way in place to its file (unless unreadable or, under -u, not newer); the arguments left over are added in order at the end or next to the key, which is sought among the unmatched |
| ArReplaceTheorems.UpdatedWellFormed | cctools/ar/replace.c:125-207 | the result is a well-formed archive again |
| I386Encodable.AcceptsIff | cctools/as/i386.c:4644-4723 | an operand is accepted for an address size if and only if some ModRM and SIB, with a REX prefix in the 64-bit mode, decode to it with registers of that size |
| I386Insn.Insn.IndexCheck | cctools/as/i386.c:4644-4723 | a memory operand is accepted if and only if it can be encoded with the address size, or with the other one that a prefix can still select; the prefix is added exactly when needed |
| I386Insn.Insn.OptimizeDisp | cctools/as/i386.c:2285-2337 | a displacement is dropped only if zero, and is then dropped, and it is marked for a byte exactly if the number folded to the address size fits one, which then stands for it in the address size |
| I386Insn.Insn.BuildModrm | cctools/as/i386.c:3169-3327 | the ModRM, SIB and REX fields stand for base, index and scale as written, and call for just the displacement emitted |
| I386Insn.Insn.Output | cctools/as/i386.c:3766-3836 | ModRM, SIB where the fields call for one, and the low bytes of the displacement |
| I386Insn.Insn.Assemble | cctools/as/i386.c:3169-3327 | every operand that can be encoded in any mode is, and the bytes decode (sections 2.1.5 and 2.2.1 of the Software Developer's Manual, Volume 2) to the registers and scale written, with all bytes used, as many of them for the displacement as the operand needs, and a displacement congruent to the one written in the address size, up to 32 bits; with 64-bit addresses it is the one written modulo 2^64 if and only if that fits in 32 bits with a sign |
| I386Shortest.ShortestDisp | cctools/as/i386.c:2285-2337 | no encoding of the operand has a shorter displacement that stands for a number of the address size |
| I386Insn.DisplacementSignLost | cctools/as/i386.c:2305-2315 | concrete: 0x80000000(%rbx) with 64-bit addresses decodes to a displacement of -2^31, another number modulo 2^64 |
| I386Decode.FieldsDecode | cctools/as/i386.c:3766-3789 | the bytes packed from fields decode to the address the fields stand for |
| I386Decode.DecodeExamples | cctools/as/i386.c:3766-3789 | concrete: the bytes of 8(%eax,%ebx,8) and of 5(%bx,%si) |
| I386Immediate.Immediate.OptimizeImm | cctools/as/i386.c:2178-2253 | the normalised value is congruent to the constant written, and the sign extended byte form is offered only when it gives that value |
| I386Immediate.Immediate.Assemble | cctools/as/i386.c:2911-2987 | the bytes emitted for a constant, sign extended, are congruent to it modulo the operand size; only 64-bit operands refuse constants, those that do not fit in 32 bits with a sign; for a constant that fits the operand one byte is used exactly when it is enough |
| I386Branch.Frag.Convert | cctools/as/i386.c:5230-5325 | the fragment is rewritten to the opcode for the reach found and the distance from the next instruction; nothing else in it changes |
| I386Branch.BranchReaches | cctools/as/i386.c:5266-5325 | executing the rewritten bytes continues after them when the original condition fails, and otherwise reaches an address congruent to the target in the displacement size, the target itself if and only if the distance fits; this includes the inverted condition over a near jump |
| Scrubber.Scrub.NextChar | cctools/as/app.c:122-501 | outside strings and markers the character returned is the one read last, but for a space, the newline of a comment and the code of a character constant; what comes out in all is what is told of the text; a symbol character after another was next to it; a line marker becomes its directives; newlines are conserved but for those inserted where the end of the file cuts off a string, or a comment if the last line has no newline, and for one swallowed exactly when the characters read last are a quote and a newline; without line markers what becomes of the newlines is what is counted from the text; no space follows a space outside strings; strings are copied; it fails to end only in a line marker without a newline |
| Scrubber.Scrub.SkipBlockComment | cctools/as/app.c:338-350 | what follows the first end of a comment is left, and every newline in between is owed |
| Scrubber.Scrub.AfterLine | cctools/as/app.c:180-212 | digits are returned; after them comes the name of the file as its directive, or the newline of the marker; newlines are conserved |
| Scrubber.Scrub.DealMisc | cctools/as/app.c:426-493 | a comment leaves what follows its newline, and gives that newline back; a number after one that starts a line begins a marker; any other character is returned, or put back behind a space |
| Scrubber.Scrub.QuoteSeen | cctools/as/app.c:386-404 | the character after a quote becomes its code, modulo 256, in decimal and in parentheses; it is swallowed exactly when it is a newline |
| Scrubber.Scrub.Emit | cctools/as/app.c:158-165 | the next character of a text of the scrubber's own is returned, and the state is restored after the last |
| Scrubber.Scrub.BlankSeen | cctools/as/app.c:299-336 | white space is skipped; a space is returned for it before something on the line, in the states that keep one |
| Scrubber.Scrub.OtherChar | cctools/as/app.c:368-493 | a character of the code is returned itself, or put back behind a space; a quote, a comment and a line marker become what they stand for; and lines start anew where they should |
| Scrubber.Scrub.Run | cctools/as/app.c:122-501 | over any number of calls: newlines returned, owed and unread are those consumed, for every input that ends with a newline and has none right after a quote, when no string is cut off, as with no double quote at all; in general the differences are those inserted and swallowed; and a run to the end of a text without line markers returns, owes, swallows and inserts exactly what is counted from the text alone, and what it returns is, without the blanks of the code, what the text comes out as; no blank is returned where the text has neither white space nor a slash |
| ScrubberText.Balanced | cctools/as/app.c:122-501 | in that count every newline of the text is returned, owed or swallowed, and the end cuts off at most one string or comment |
| ScrubberText.NewlinesConserved | cctools/as/app.c:122-501 | a text that ends with a newline and has none after a quote keeps its newlines, but for one more if its last string is not closed; without a slash or a backslash all of them have been returned at the end |
| ScrubberText.ConstantSwallowed | cctools/as/app.c:386-404 | concrete: of the two newlines of a quote and two newlines one is returned |
| ScrubberText.PlainUnchanged | cctools/as/app.c:122-501 | a text without blanks, comments, character constants and strings comes out as it is |
| ScrubberText.CharTextSpells | cctools/as/app.c:396-404 | what a character constant becomes spells its code in decimal |
| ScrubberText.EscapedNewline | cctools/as/app.c:245-252 | concrete: a newline after a backslash in a string comes out as a second backslash and an n |

## Left out

- FlonumMult.FlonumMultip: the product of two littlenums is taken without overflow; in C it is computed as an `int`, where products of 2^31 and more are undefined. `FlonumMultTheorems.ProductsAreIntsIff` says when that does not happen. The bound on the leaders keeps `work` and `carry` in 64 bits.
- AtofGeneric.ConvertText: the decimal exponent is unbounded, where the source says that it loses on overflow; digit counts computed in `double` are computed over reals; decimal and exponent marks are "." and "eE" as at every call; the tables of powers of ten are parameters.
- AtofIeee.Convert: the entries of the tables from the second on have nonzero leaders.
- PowerOfTenTheorems.ChainExactly: is relative to the entries of the table; how well the constants in `cctools/as/flonum-const.c` approximate powers of ten is not part of this model, and a hypothesis of `ErrorBound.TextToWords`.
- GenToWords.ToWords: models the float and double formats, not the extended and packed ones; the scan for all-ones words before the carry loop has no effect under `NeXT_MOD` and is not modelled. The search for the first bit that would not end is a result, not run; `AtofIeee.Convert` shows that it does not arise.
- ErrorBound.TextToWords: each product is taken to be exact or to fill its array; one whose low columns are zero and whose carry shifts out the next littlenum is not bounded.
- ExprParser.Parser.Operand: bignums, floating point constants, local labels, quoted names and `.` are a parameter of the input that says what each stands for; characters of 256 and above do not occur.
- ExprParser.Parser.Expr: the flag for a difference divided by two is not recorded, and the flag -dynamic, on by default, is taken as on, so that no difference of symbols is evaluated. Symbols with an expression attached are not modelled, nor the creation of a symbol for an undefined name: symbols are their names. Shift counts use their low six bits, and the quotient that overflows wraps, as on the host.
- ExprMeaning.ConstantsRoundTrip: printed texts have no spaces, although the parser is modelled with them.
- HashTable.HashControl.Lookup: keys contain no NUL among their first len characters. The statistics counters and the release of memory are not modelled.
- HashTable.HashControl.Traverse: what is called for each entry does not change the table.
- ArMembers.Archiver.GetArobj: numbers are not clamped to their C types.
- ArCopy.CopyAr: a negative size is compared with the size of the buffer as with a 64-bit `size_t`.
- ArEncoding.HeadersReadBack: the listing it is about stops at a negative size that leads back, where the source might go round.
- ArMove.Move: locking, short reads and writes, and files that change while they are read are not modelled; the same holds for the other two commands.
- ArHeaderTheorems.NewEntryReadsBack: fields wider than their columns, names whose padded length exceeds the buffer, and truncated names (-T) are excluded.
- I386Insn.Insn.Assemble: the operand of a template for a general memory operand; displacements are constants; segment overrides are not modelled.
- I386Immediate.Immediate.Assemble: the templates are the two of an arithmetic instruction with an immediate, and the operand size is known.
- I386Branch.Frag.Convert: the choice of the reach by the relaxation loop is not part of this model, nor are relocations.
- Scrubber.Scrub.Run: what a text comes out as is told for texts without line markers, for which every step says what it returns; the balance and its conditions are for all texts.
- Scrubber.Scrub.NextChar: the state that skips to the end of a comment is never entered and not modelled; the characters are those of the i386 back end.
- `extract`, `print`, `contents`, the option handling of `ar.c`, the driver, input files and message texts: plumbing.
- `i386-opcode.h` and the other back ends: tables, and packing of one field at a time.
