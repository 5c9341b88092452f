# Verified models of the CRC, rational, tokenizer and message code

This project models four parts of the repository and proves what they promise.

* **CRC** (`boost/crc.hpp`). `crc_basic` divides one bit at a time, `crc_optimal` one byte at a time
  through a generated table and optionally bit-reversed, `augmented_crc` shifts the message through
  the register. All three are proved to compute the remainder of polynomial division over GF(2), for
  every width, polynomial, initial value, final XOR and pair of reflection flags. What the remainder
  detects (bursts, odd numbers of errors) is characterized exactly.
* **Exact rationals** (`boost/rational.hpp`). The in-place operators keep lowest terms without
  normalizing and compute exact values; `operator<` decides the order by continued fractions.
* **Tokenizers** (`boost/token_functions.hpp`, `boost/token_iterator.hpp`). Two separators with state
  kept between calls, driven by an iterator; the whole run equals a plain split or a decoding.
* **Messages** (`unixdomainsocket/include`). Framing, parsing, and the client's reassembly of
  messages from socket reads.

## Layout

| file | contents |
|---|---|
| `Options.dfy`, `Sequences.dfy` | optional values; joining sequences |
| `Words.dfy` | machine words as bit sequences; `reflect` |
| `PolynomialDivision.dfy` | long division over GF(2), and the bitwise register as an instance of it |
| `ErrorDetection.dfy` | which errors a remainder detects |
| `CrcSpec.dfy` | the checksum of a buffer; the byte-at-a-time law; augmented messages |
| `CrcBasic.dfy`, `CrcTable.dfy`, `CrcOptimal.dfy` | the engines as classes |
| `CrcTypes.dfy` | the ready-made CRC types; checksum-level results |
| `CrcReference.dfy` | the ready-made types against shifting loops over numeric constants |
| `Divisibility.dfy` | gcd, lcm, Bezout, coprimality, truncated division |
| `LowestTerms.dfy` | why each operator's result is exact and in lowest terms |
| `ContinuedFractions.dfy` | the comparison loop |
| `RationalNumber.dfy`, `RationalGcd.dfy` | the `rational` class; its gcd and lcm evaluators |
| `Splitting.dfy`, `CharSeparation.dfy` | the split of a text; `char_separator` |
| `EscapedList.dfy` | decoding of escaped lists; `escaped_list_separator` |
| `TokenIteration.dfy` | `token_iterator` and whole runs |
| `ByteStreams.dfy`, `MessageFormat.dfy` | bytes, and those of a message |
| `MessageObjects.dfy` | `Message`, `MessageParser`, `MessageManager` |
| `Reassembly.dfy` | the client as a state machine over received chunks, and what every run of it does |
| `MessageStreams.dfy` | which streams of messages arrive |
| `SocketClient.dfy` | the client's read and write loops |

## Conventions

A machine word is a sequence of bits, the most significant first. `value_type` may be wider than the
CRC (`least` in one engine, `fast` in the other): a word of any width at least `bits` is allowed, and
everything above the low `bits` may be junk unless the code keeps it clear. A byte indexes the table
through its numeric value. A remainder of exactly `bits` bits is the polynomial with those
coefficients, the first being the leading one.

`integer::gcd` and `integer::lcm` come from a header that is not part of this model; they are taken to
be the non-negative mathematical gcd and lcm. Values of rationals are real numbers. Division and
remainder are C++'s, truncating toward zero.

An exception is a returned `false`, `null` or error value. `ispunct` and `isspace` are parameters. An
uninitialized field holds an arbitrary value. Integers in a message are little-endian two's complement.
One read event is the non-empty list of reads that drain the socket; a write answers with any number.

Where the code and its own comments differ, the model follows the code:

* `crc_xmodem_type` (`crc.hpp:95`) is declared with the polynomial 8408, which is 1021 bit-reversed, and
  also reflects. Its constant coefficient is 0, so unlike the other types it misses some bursts of its
  own width (`CrcTypes.BurstDetectionByType`, `CrcTypes.XmodemMissesABurst`).
* The comment in `operator+=` says that the calculation avoids overflow. In every range [-M, M] with an
  odd M from 3 on, 2^31 - 1 included, M/2 + M/2 = M/1 has operands and result in range but not the sum
  formed on the way (`LowestTerms.SumCanLeaveRange`). `LowestTerms.SumStaysInRange` and
  `LowestTerms.DifferenceStaysInRange` say exactly when every value formed by `+=` and `-=` fits; those
  of `*=` and `/=` always do when operands and result fit, and those of `<` when the operands do. The four
  operators of `RationalNumber` record the values they form and promise this of them.
* `char_separator::reset` does not clear `m_output_done`. The separator of an iterator that has finished, or
  stopped anywhere, given to another iterator, can lose that one's first token; `TokenIteration.ReuseFinished`
  and `TokenIteration.ReuseStopped` say exactly when. `token_iterator::equal` ignores the flag, so two
  iterators of one run can be equal with different tokens ahead
  (`TokenIteration.EqualWithDifferentTokensAhead`).
* The roles of escape, separator and quote can be given to any characters, but an escaped `n` always
  reads as a newline, so fields round-trip exactly when `n` has no such role
  (`EscapedList.RoundTripCriterion`).
* The `Message` constructor hands its two flags to `SetHeader` in the opposite order, so they are
  parsed back exchanged (`MessageFormat.ParseBuilt`).
* A stream of messages arrives as sent exactly when each message has received chunks of its own and no
  later one of them begins with the magic value (`MessageStreams.StreamDelivery`); in positions, when no
  chunk spans the start of a message and a chunk begins with the magic value only where a message begins
  (`MessageStreams.CutPerMessageByPosition`). `MessageStreams.SharedGroup` says what becomes of
  messages that share a group; two in one chunk are both lost (`MessageStreams.CoalescedMessagesAreLost`).
* `IsPerfectMessage` compares sizes cut to 32 bits, so a message has its declared size exactly when its size
  fits (`Reassembly.DeliveredSizes`, and on the received chunks `Reassembly.AllSizesKept`);
  `MessageStreams.OversizedMessageDelivered` is a run that delivers 2^32 + 20 bytes as a message of 20.

After a disconnect (`UnixDomainSocketClient.cpp:132-136, 184-197`) the partial message in `message_manager_`
stays there and meets the chunks of the next connection. A run is therefore one sequence of chunks over all
connections; the results that start from any held message apply to each connection
(`MessageStreams.NextConnection`).

## Model

| member | source | states |
|---|---|---|
| Words.Reflect | tcp_with_boost_asio/include/boost/crc.hpp:307-326 | the loop computes the reversal of the low n bits with everything above cleared |
| Words.ReflectedTwice | tcp_with_boost_asio/include/boost/crc.hpp:307-326 | reflecting is an involution on the low bits |
| Words.ByteIndex | tcp_with_boost_asio/include/boost/crc.hpp:530-531 | a byte and its index into the 256-entry table determine each other |
| Words.BitOfValue | tcp_with_boost_asio/include/boost/crc.hpp:307-326 | bit k of a word is bit k of its numeric value |
| Words.BitsOfShifts | tcp_with_boost_asio/include/boost/crc.hpp:577-619 | what shifts and XOR do to each bit |
| PolynomialDivision.MulIsConvolution | tcp_with_boost_asio/include/boost/crc.hpp:727-750 | the product used to define division is the polynomial product over GF(2), coefficient by coefficient |
| PolynomialDivision.LongDivision | tcp_with_boost_asio/include/boost/crc.hpp:727-750 | dividend = quotient times (x^B + poly) + remainder, degree of the remainder below B |
| PolynomialDivision.RemUnique | tcp_with_boost_asio/include/boost/crc.hpp:727-750 | quotient and remainder are the only ones |
| PolynomialDivision.RunIsRem | tcp_with_boost_asio/include/boost/crc.hpp:727-770 | the register after n bits b from I holds the remainder of I x^n + b x^B |
| PolynomialDivision.RunIsTheRemainder | tcp_with_boost_asio/include/boost/crc.hpp:727-770 | and is the unique polynomial of degree below B congruent to it |
| PolynomialDivision.RunConcat | tcp_with_boost_asio/include/boost/crc.hpp:784-810 | feeding two streams in turn is feeding their concatenation |
| PolynomialDivision.RunLinear | tcp_with_boost_asio/include/boost/crc.hpp:727-770 | the register is linear in initial remainder and stream together |
| PolynomialDivision.Absorb | tcp_with_boost_asio/include/boost/crc.hpp:727-750 | at most B bits act as an XOR into the top of the register followed by zero bits |
| ErrorDetection.ZeroRunInvertible | tcp_with_boost_asio/include/boost/crc.hpp:727-750 | with a low bit of 1, shifting in zeros never clears a non-zero register |
| ErrorDetection.BurstDetected | tcp_with_boost_asio/include/boost/crc.hpp:727-770 | streams that differ only inside B positions leave different remainders if the polynomial's low bit is 1 |
| ErrorDetection.BurstDetectionCriterion | tcp_with_boost_asio/include/boost/crc.hpp:727-770 | all such bursts are detected if and only if that bit is 1 |
| ErrorDetection.OddErrorCriterion | tcp_with_boost_asio/include/boost/crc.hpp:727-770 | all errors in an odd number of positions are detected if and only if the polynomial has an odd number of ones |
| CrcSpec.ByteStep | tcp_with_boost_asio/include/boost/crc.hpp:944-966 | eight bitwise steps are a shift by eight and the table entry of the top byte XOR the input, for every width |
| CrcSpec.RunNextByte | tcp_with_boost_asio/include/boost/crc.hpp:771-798 | a buffer is processed byte by byte, each in the configured bit order |
| CrcSpec.StreamBit | tcp_with_boost_asio/include/boost/crc.hpp:752-781 | the bits of a byte enter from the lowest up if input is reflected, and else from the highest down |
| CrcSpec.ChecksumIsTheRemainder | tcp_with_boost_asio/include/boost/crc.hpp:813-823 | bit by bit, the published checksum is the division remainder of initial value and buffer, reversed if asked, XOR the final value |
| CrcSpec.AugmentedByteStep | tcp_with_boost_asio/include/boost/crc.hpp:1063-1073 | one pass of the augmented loop is long division of register and byte |
| CrcSpec.AugmentedIsRun | tcp_with_boost_asio/include/boost/crc.hpp:1045-1076 | dividing I, message and B zeros is the ordinary CRC from zero of I and message |
| CrcSpec.AugmentedValidates | tcp_with_boost_asio/include/boost/crc.hpp:1045-1076 | message and check bits divide to zero if and only if the check bits are the message's CRC |
| CrcBasic.StepOnWord | tcp_with_boost_asio/include/boost/crc.hpp:727-750 | process_bit on a wider word is one division step on its low bits, whatever junk is above |
| CrcBasic.ShiftingByte | tcp_with_boost_asio/include/boost/crc.hpp:752-768 | the bit at the top of the shifted byte is the next one due |
| CrcBasic.Crc.constructor | tcp_with_boost_asio/include/boost/crc.hpp:630-645 | the engine starts at the given initial remainder with the given parameters |
| CrcBasic.Crc.GetInterimRemainder | tcp_with_boost_asio/include/boost/crc.hpp:696-704 | the remainder, junk masked away |
| CrcBasic.Crc.Reset | tcp_with_boost_asio/include/boost/crc.hpp:706-715 | the remainder becomes the given one |
| CrcBasic.Crc.ResetToInitial | tcp_with_boost_asio/include/boost/crc.hpp:717-724 | the remainder becomes the initial one |
| CrcBasic.Crc.ProcessBit | tcp_with_boost_asio/include/boost/crc.hpp:727-750 | one division step |
| CrcBasic.Crc.ProcessBits | tcp_with_boost_asio/include/boost/crc.hpp:752-770 | division by the lowest bit_count bits, the highest of them first |
| CrcBasic.Crc.ProcessByte | tcp_with_boost_asio/include/boost/crc.hpp:771-781 | division by the byte's bits, reversed if input is reflected |
| CrcBasic.Crc.ProcessBytes | tcp_with_boost_asio/include/boost/crc.hpp:783-811 | division by the whole buffer's bits |
| CrcBasic.Crc.Checksum | tcp_with_boost_asio/include/boost/crc.hpp:813-823 | remainder, reflected if asked, XOR the final value, masked |
| CrcTable.DivideByte | tcp_with_boost_asio/include/boost/crc.hpp:508-529 | the inner loop computes eight division steps from zero |
| CrcTable.Table.InitTable | tcp_with_boost_asio/include/boost/crc.hpp:489-536 | after the call every entry is the partial remainder of its index; a second call changes nothing |
| CrcTable.Table.Fill | tcp_with_boost_asio/include/boost/crc.hpp:504-533 | the loop over all dividends, ended by wrap-around, fills all 256 entries |
| CrcTable.Table.StoreEntry | tcp_with_boost_asio/include/boost/crc.hpp:530-531 | storing one (reflected) entry keeps the earlier ones |
| CrcTable.Table.Lookup | tcp_with_boost_asio/include/boost/crc.hpp:964 | a looked-up entry is eight division steps from zero on its byte |
| CrcOptimal.IndexIsTopByte | tcp_with_boost_asio/include/boost/crc.hpp:577-578 | in both orientations the index is the register's top byte XOR the input |
| CrcOptimal.ShiftOutIsShl | tcp_with_boost_asio/include/boost/crc.hpp:618-619 | in both orientations the shift drops that byte |
| CrcOptimal.TableStepRefinesDivision | tcp_with_boost_asio/include/boost/crc.hpp:952-965 | one pass of the table loop is eight bits of bitwise division, for every width and either orientation |
| CrcOptimal.Crc.constructor | tcp_with_boost_asio/include/boost/crc.hpp:832-843 | the engine starts at the given remainder with a filled table |
| CrcOptimal.Crc.GetInterimRemainder | tcp_with_boost_asio/include/boost/crc.hpp:905-915 | the unreflected remainder |
| CrcOptimal.Crc.Reset | tcp_with_boost_asio/include/boost/crc.hpp:917-929 | the remainder becomes the given one |
| CrcOptimal.Crc.ProcessByte | tcp_with_boost_asio/include/boost/crc.hpp:954-965 | the loop body divides by one byte |
| CrcOptimal.Crc.ProcessBytes | tcp_with_boost_asio/include/boost/crc.hpp:944-981 | the same contract as the bitwise engine's |
| CrcOptimal.Crc.Checksum | tcp_with_boost_asio/include/boost/crc.hpp:984-995 | the same contract as the bitwise engine's |
| CrcOptimal.ReorientRegister | tcp_with_boost_asio/include/boost/crc.hpp:984-995 | reflecting when the two flags differ gives the wanted orientation |
| CrcOptimal.ComputeCrc | tcp_with_boost_asio/include/boost/crc.hpp:1026-1039 | `crc` returns the specified checksum of the buffer |
| CrcOptimal.EnginesAgree | tcp_with_boost_asio/include/boost/crc.hpp:784-823 | from equal states both engines publish the same checksum for every buffer and end in equal states |
| CrcOptimal.ResetToInterim | tcp_with_boost_asio/include/boost/crc.hpp:905-929 | resetting to the interim remainder changes no later result in either engine |
| CrcOptimal.AugmentedCrc | tcp_with_boost_asio/include/boost/crc.hpp:1045-1076 | the masked result is the remainder of initial remainder and buffer, for every width of at least 8 |
| CrcTypes.BurstDetectionByType | tcp_with_boost_asio/include/boost/crc.hpp:93-98 | all ready-made types but crc_xmodem_type detect every burst up to their width |
| CrcTypes.XmodemMissesABurst | tcp_with_boost_asio/include/boost/crc.hpp:95 | two different two-byte buffers with equal checksums |
| CrcTypes.OddErrorsByType | tcp_with_boost_asio/include/boost/crc.hpp:93-98 | which types detect every odd number of errors |
| CrcTypes.ChecksumDetectsBursts | tcp_with_boost_asio/include/boost/crc.hpp:813-823 | burst detection for published checksums, whatever the other parameters |
| CrcTypes.ChecksumMissesBurst | tcp_with_boost_asio/include/boost/crc.hpp:813-823 | without the polynomial's low bit, two different buffers of whole bytes with equal checksums, their difference inside B positions |
| CrcTypes.ChecksumBurstCriterion | tcp_with_boost_asio/include/boost/crc.hpp:813-823 | so published checksums detect all bursts in buffers of any length if and only if that bit is 1 |
| CrcTypes.ResidueOfCheck | tcp_with_boost_asio/include/boost/crc.hpp:783-823 | a message followed by its own check bytes has the same checksum whatever the message; other check bytes give it only if their difference runs to zero |
| CrcTypes.ReceiverIsExactIff | tcp_with_boost_asio/include/boost/crc.hpp:783-823 | comparing with that constant accepts exactly the right check bytes of every message if and only if the polynomial's low bit is 1 |
| CrcTypes.AugmentedMatchesOptimal | tcp_with_boost_asio/include/boost/crc.hpp:1045-1096 | augmented_crc of message and Bits/8 zero bytes is the plain checksum, with any initial remainder |
| CrcTypes.AugmentedAcceptsExactlyTheChecksum | tcp_with_boost_asio/include/boost/crc.hpp:1045-1096 | and of message and check bytes is 0 if and only if they are the checksum, big-endian |
| CrcReference.ReflectedEntryIsRightShifting | tcp_with_boost_asio/include/boost/crc.hpp:504-532 | a reflected table entry is eight right-shifting steps, as in section 8 of RFC 1952 |
| CrcReference.Crc32ReversedPolynomial | tcp_with_boost_asio/include/boost/crc.hpp:97-98 | the polynomial of crc_32_type reversed is EDB88320 |
| CrcReference.HexValue | tcp_with_boost_asio/include/boost/crc.hpp:93-98 | the digits of the declared constants have their numeric values |
| CrcReference.RightCrcIsRun | tcp_with_boost_asio/include/boost/crc.hpp:944-981 | right-shifting byte by byte with the reversed polynomial is dividing the reflected buffer |
| CrcReference.LeftCrcIsRun | tcp_with_boost_asio/include/boost/crc.hpp:944-981 | left-shifting byte by byte is dividing the buffer |
| CrcReference.Crc32IsRfc1952 | tcp_with_boost_asio/include/boost/crc.hpp:97-98 | for every buffer crc_32_type gives what the code of section 8 of RFC 1952 computes |
| CrcReference.Crc16IsRightShifting | tcp_with_boost_asio/include/boost/crc.hpp:93 | crc_16_type is right-shifting from 0 with A001 |
| CrcReference.CrcCcittIsLeftShifting | tcp_with_boost_asio/include/boost/crc.hpp:94 | crc_ccitt_type is left-shifting from FFFF with 1021 |
| CrcReference.CrcXmodemIsRightShifting | tcp_with_boost_asio/include/boost/crc.hpp:95 | crc_xmodem_type is right-shifting from 0 with 1021 |
| Divisibility.Bezout | tcp_with_boost_asio/include/boost/rational.hpp:99-104 | the gcd is an integer combination and divides both numbers |
| Divisibility.GcdGreatest | tcp_with_boost_asio/include/boost/rational.hpp:99-104 | every common divisor divides the gcd |
| Divisibility.LcmLeast | tcp_with_boost_asio/include/boost/rational.hpp:106-111 | the lcm divides every common multiple |
| Divisibility.TruncatedDivision | tcp_with_boost_asio/include/boost/rational.hpp:755-758 | quotient and remainder are the only ones with a remainder smaller than the divisor and of the dividend's sign |
| LowestTerms.NormalFormUnique | tcp_with_boost_asio/include/boost/rational.hpp:823-828 | normalized fractions have equal values if and only if their fields are equal |
| LowestTerms.SumInLowestTerms | tcp_with_boost_asio/include/boost/rational.hpp:490-522 | dividing by gcd(num, g) alone gives the exact sum in lowest terms |
| LowestTerms.CrossReduced | tcp_with_boost_asio/include/boost/rational.hpp:544-556 | cancelling crosswise leaves coprime products |
| LowestTerms.ProductInLowestTerms | tcp_with_boost_asio/include/boost/rational.hpp:544-556 | the exact product in lowest terms |
| LowestTerms.QuotientInLowestTerms | tcp_with_boost_asio/include/boost/rational.hpp:558-585 | the exact quotient in lowest terms, the sign moved to the numerator |
| LowestTerms.ProductStaysInRange | tcp_with_boost_asio/include/boost/rational.hpp:551-555 | if operands and exact result fit a symmetric range, so does every intermediate |
| LowestTerms.QuotientStaysInRange | tcp_with_boost_asio/include/boost/rational.hpp:574-583 | the same for division |
| LowestTerms.SumResultFits | tcp_with_boost_asio/include/boost/rational.hpp:513-519 | the gcds, quotients and stored numbers of `+=` fit by themselves; the intermediate sum is the result's numerator times the gcd divided out |
| LowestTerms.SumStaysInRange | tcp_with_boost_asio/include/boost/rational.hpp:513-519 | if operands and exact sum fit a symmetric range, every value formed does if and only if a stated condition on the operands, itself free of overflow, holds |
| LowestTerms.DifferenceStaysInRange | tcp_with_boost_asio/include/boost/rational.hpp:533-538 | the same for `-=` |
| LowestTerms.SumCanLeaveRange | tcp_with_boost_asio/include/boost/rational.hpp:492-493 | for every odd limit from 3 on, operands and sum in range and an intermediate outside |
| ContinuedFractions.LessThan | tcp_with_boost_asio/include/boost/rational.hpp:739-821 | the loop terminates, decides n1 d2 < n2 d1, and no variable exceeds the operands' magnitude |
| ContinuedFractions.FloorDivide | tcp_with_boost_asio/include/boost/rational.hpp:754-770 | quotient and remainder after the fix-up are the floored ones |
| ContinuedFractions.ReciprocateOrder | tcp_with_boost_asio/include/boost/rational.hpp:782-796 | equal quotients: the order is the reverse of that of the reciprocal remainders |
| ContinuedFractions.QuotientsDecide | tcp_with_boost_asio/include/boost/rational.hpp:774-780 | different quotients decide the order |
| ContinuedFractions.LessThanInteger | tcp_with_boost_asio/include/boost/rational.hpp:348-363 | comparing the floored quotient decides n/d < i |
| RationalNumber.InnerGcdIsGcd | tcp_with_boost_asio/include/boost/rational.hpp:387-390 | the recursion on signed remainders yields the gcd up to sign |
| RationalNumber.IsNormalizedDecidesInvariant | tcp_with_boost_asio/include/boost/rational.hpp:403-409 | is_normalized holds if and only if d > 0 and gcd(n, d) = 1 |
| RationalNumber.NormalizeInLowestTerms | tcp_with_boost_asio/include/boost/rational.hpp:853-862 | dividing by the gcd and moving the sign keeps the value and gives lowest terms |
| RationalNumber.Rational.Normalize | tcp_with_boost_asio/include/boost/rational.hpp:839-873 | establishes the invariant and keeps the value; throws exactly on a zero denominator |
| RationalNumber.Rational.Make | tcp_with_boost_asio/include/boost/rational.hpp:159-164 | construction from numerator and denominator |
| RationalNumber.Rational.FromInteger | tcp_with_boost_asio/include/boost/rational.hpp:153-158 | construction from an integer |
| RationalNumber.Rational.AddAssign | tcp_with_boost_asio/include/boost/rational.hpp:489-522 | exact sum, still normalized, also when the operand is the object itself; the values it forms stay in range if and only if the condition of LowestTerms.SumStaysInRange holds |
| RationalNumber.Rational.SubtractAssign | tcp_with_boost_asio/include/boost/rational.hpp:524-541 | exact difference, still normalized, with the same kind of condition |
| RationalNumber.Rational.MultiplyAssign | tcp_with_boost_asio/include/boost/rational.hpp:543-556 | exact product, still normalized; no value formed leaves a range that holds operands and result |
| RationalNumber.Rational.DivideAssign | tcp_with_boost_asio/include/boost/rational.hpp:558-585 | exact quotient, still normalized, with the same range guarantee; throws exactly on a zero divisor and then changes nothing |
| RationalNumber.Rational.AddInteger | tcp_with_boost_asio/include/boost/rational.hpp:266-271 | exact sum with an integer |
| RationalNumber.Rational.SubtractInteger | tcp_with_boost_asio/include/boost/rational.hpp:272-277 | exact difference with an integer |
| RationalNumber.Rational.MultiplyInteger | tcp_with_boost_asio/include/boost/rational.hpp:278-286 | exact product with an integer |
| RationalNumber.Rational.DivideInteger | tcp_with_boost_asio/include/boost/rational.hpp:287-307 | exact quotient by an integer, or the exception on zero |
| RationalNumber.Rational.Increment | tcp_with_boost_asio/include/boost/rational.hpp:310 | adds one, still normalized |
| RationalNumber.Rational.Decrement | tcp_with_boost_asio/include/boost/rational.hpp:311 | subtracts one, still normalized |
| RationalNumber.Rational.LessThan | tcp_with_boost_asio/include/boost/rational.hpp:739-821 | decides the order of the values |
| RationalNumber.Rational.LessThanInteger | tcp_with_boost_asio/include/boost/rational.hpp:348-363 | decides the order against an integer |
| RationalNumber.Rational.Equals | tcp_with_boost_asio/include/boost/rational.hpp:823-828 | field equality is value equality |
| RationalNumber.Negate | tcp_with_boost_asio/include/boost/rational.hpp:482-486 | the negated numerator over the same denominator |
| RationalNumber.Absolute | tcp_with_boost_asio/include/boost/rational.hpp:962-966 | the absolute numerator over the same denominator |
| RationalNumber.AddThenSubtract | tcp_with_boost_asio/include/boost/rational.hpp:489-541 | adding and subtracting the same number restores both fields |
| RationalNumber.MultiplyThenDivide | tcp_with_boost_asio/include/boost/rational.hpp:543-585 | multiplying and dividing by the same non-zero number restores both fields |
| RationalNumber.OrderIsTotalAndKeptBySums | tcp_with_boost_asio/include/boost/rational.hpp:345-348 | exactly one of less, equal, greater holds, and adding to both sides keeps it |
| RationalGcd.GcdEvaluator | tcp_with_boost_asio/include/boost/rational.hpp:970-982 | gcd over lcm is in lowest terms, divides both arguments, and is divided by every common divisor |
| RationalGcd.LcmEvaluator | tcp_with_boost_asio/include/boost/rational.hpp:984-996 | lcm over gcd is in lowest terms, a common multiple, and divides every other |
| RationalGcd.MultipleSplits | tcp_with_boost_asio/include/boost/rational.hpp:970-996 | in lowest terms, being an integer multiple splits into two divisibilities |
| RationalGcd.EvaluateGcd | tcp_with_boost_asio/include/boost/rational.hpp:975-981 | constructing the result leaves those two numbers as its fields |
| RationalGcd.EvaluateLcm | tcp_with_boost_asio/include/boost/rational.hpp:989-995 | the same for the lcm |
| Splitting.SplitCount | tcp_with_boost_asio/include/boost/token_functions.hpp:491-527 | a split has 1 + dropped + 2 kept tokens |
| Splitting.SplitConserves | tcp_with_boost_asio/include/boost/token_functions.hpp:491-527 | the tokens in order are the text without its dropped delimiters |
| Splitting.NonEmptyConserves | tcp_with_boost_asio/include/boost/token_functions.hpp:476-490 | dropping empty tokens loses no character |
| Splitting.SplitOfJoin | tcp_with_boost_asio/include/boost/token_functions.hpp:491-527 | splitting undoes joining plain fields with a dropped delimiter |
| Splitting.TokensForStrings | tcp_with_boost_asio/include/boost/token_functions.hpp:433-446 | with delimiter strings: every text is fields without delimiters and delimiters between them, and its tokens are the fields and kept delimiters in order, without the empty ones unless kept; a delimiter in both strings is kept if empty tokens are, and else dropped |
| Splitting.TokensForClasses | tcp_with_boost_asio/include/boost/token_functions.hpp:449-454 | with the default constructor the same for white space, dropped, and other punctuation, kept |
| Splitting.TokensOfJoin | tcp_with_boost_asio/include/boost/token_functions.hpp:538-555 | fields joined by a dropped delimiter tokenize to the fields |
| Splitting.OneToken | tcp_with_boost_asio/include/boost/token_functions.hpp:538-555 | a text without delimiters is its own only token |
| CharSeparation.CharSeparator.Next | tcp_with_boost_asio/include/boost/token_functions.hpp:458-529 | each call yields the next token of the split, or says that none is left and then leaves the flag as it was, set if empty tokens are kept; a measure decreases |
| CharSeparation.CharSeparator.NextKeepingEmpty | tcp_with_boost_asio/include/boost/token_functions.hpp:491-529 | the branch that keeps empty tokens, and its flag in every case |
| CharSeparation.CharSeparator.NextDroppingEmpty | tcp_with_boost_asio/include/boost/token_functions.hpp:469-490 | the branch that drops them |
| CharSeparation.CharSeparator.ReadField | tcp_with_boost_asio/include/boost/token_functions.hpp:487-489 | the characters up to the next delimiter |
| CharSeparation.StaleFlag | tcp_with_boost_asio/include/boost/token_functions.hpp:456 | with the flag left set, a text yields its split if and only if it starts with a plain character, and otherwise all of it but the first, empty, token |
| EscapedList.EscapedListSeparator.Next | tcp_with_boost_asio/include/boost/token_functions.hpp:161-198 | each call yields the next decoded field, the end, or the exception the text deserves with the position behind the escape character; a measure decreases |
| EscapedList.EscapedListSeparator.DoEscape | tcp_with_boost_asio/include/boost/token_functions.hpp:126-149 | one escape sequence, or which exception |
| EscapedList.EscapedListSeparator.Reset | tcp_with_boost_asio/include/boost/token_functions.hpp:159 | clears the flag |
| EscapedList.DecodesIffWellEscaped | tcp_with_boost_asio/include/boost/token_functions.hpp:126-149 | decoding fails if and only if an escape ends the text or precedes a character other than `n` and the special ones; quotes never matter |
| EscapedList.DecodeEncoded | tcp_with_boost_asio/include/boost/token_functions.hpp:161-198 | decoding undoes encoding for every list of fields, quoted or not, newlines written as they are or as escape and `n` |
| EscapedList.RoundTripCriterion | tcp_with_boost_asio/include/boost/token_functions.hpp:130-133 | that holds for all lists if and only if `n` has no special role |
| EscapedList.DefaultRulesRoundTrip | tcp_with_boost_asio/include/boost/token_functions.hpp:153-155 | it holds for backslash, comma and double quote |
| EscapedList.DefaultRoles | tcp_with_boost_asio/include/boost/token_functions.hpp:153-155 | by default a text without backslash, comma and double quote is one field, unchanged |
| EscapedList.DecodePair | tcp_with_boost_asio/include/boost/token_functions.hpp:130-145 | an escaped special character stands for itself, and an escaped `n` for a newline |
| EscapedList.RolesByPriority | tcp_with_boost_asio/include/boost/token_functions.hpp:175-196 | characters with several roles are taken as escape first, then separator, then quote |
| EscapedList.EncodesToNothing | tcp_with_boost_asio/include/boost/token_iterator.hpp:73-74 | the one list with an empty encoding |
| TokenIteration.TokenIterator.Initialize | tcp_with_boost_asio/include/boost/token_iterator.hpp:70-75 | the iterator presents all tokens of a non-empty text and none of an empty one |
| TokenIteration.TokenIterator.Increment | tcp_with_boost_asio/include/boost/token_iterator.hpp:53-56 | removes exactly the first of the remaining tokens; a measure decreases |
| TokenIteration.EqualIteratorsOweTheSame | tcp_with_boost_asio/include/boost/token_iterator.hpp:63-68 | exactly when equal valid iterators have the same tokens ahead |
| TokenIteration.At | tcp_with_boost_asio/include/boost/token_iterator.hpp:53-80 | constructing and incrementing k times reaches token k, with exactly the later ones due |
| TokenIteration.EqualWithDifferentTokensAhead | tcp_with_boost_asio/include/boost/token_iterator.hpp:63-68 | two pairs of iterators, each reached in a run, that are equal with different tokens ahead |
| TokenIteration.TokenIterator.TokenizerFunction | tcp_with_boost_asio/include/boost/token_iterator.hpp:96 | a copy of the iterator's function, flag included |
| TokenIteration.RunUntil | tcp_with_boost_asio/include/boost/token_iterator.hpp:53-80 | a caller's loop, incrementing until the iterator equals an end iterator, delivers all tokens up to the end or the exception, leaves the given function alone, and ends in a stated state of its copy |
| TokenIteration.Tokenize | tcp_with_boost_asio/include/boost/token_iterator.hpp:53-80 | the same with the end iterator of an empty range |
| TokenIteration.ReuseFinished | tcp_with_boost_asio/include/boost/token_functions.hpp:456 | a second run with a finished run's function delivers the second text's tokens if and only if a stated condition holds, and otherwise all but the first |
| TokenIteration.ReuseStopped | tcp_with_boost_asio/include/boost/token_functions.hpp:456 | the same with the function of an iterator stopped at any token: the flag is set unless that token is a delimiter |
| TokenIteration.ReuseFinishedList | tcp_with_boost_asio/include/boost/token_functions.hpp:159 | a second run with an escaped_list_separator always delivers its text's fields |
| TokenIteration.TokenizeChars | tcp_with_boost_asio/include/boost/token_functions.hpp:458-529 | a run of char_separator is the split of the text, with or without empty tokens |
| TokenIteration.TokenizeByStrings | tcp_with_boost_asio/include/boost/token_functions.hpp:433-529 | a run of a separator made from strings, in terms of those strings |
| TokenIteration.TokenizeByClasses | tcp_with_boost_asio/include/boost/token_functions.hpp:449-529 | a run of a default separator, in terms of ispunct and isspace |
| TokenIteration.TokenizeEncoded | tcp_with_boost_asio/include/boost/token_functions.hpp:161-198 | a run over encoded fields delivers the fields, trailing empty ones included and newlines however written |
| MessageFormat.LoadStore | unixdomainsocket/include/Message.h:15-23 | a value that fits its field is read back |
| MessageFormat.StoreLoad | unixdomainsocket/include/Message.h:15-23 | and the bytes of a field are given back by the value read |
| MessageFormat.ReadWritten | unixdomainsocket/include/Message.cpp:18-34 | parsing reads back every header field |
| MessageFormat.HeaderIsLossless | unixdomainsocket/include/Message.cpp:18-34 | the fields parsed from any 20 bytes give the bytes back |
| MessageFormat.MagicOnTheWire | unixdomainsocket/include/Message.cpp:58-60 | a message is a header message if and only if its first bytes are 32 54 76 98 |
| MessageFormat.DataLengthIsExact | unixdomainsocket/include/Message.cpp:18-34 | the parsed data length is the number of data bytes if and only if the declared length is the size |
| MessageFormat.ParseBuilt | unixdomainsocket/include/Message.cpp:88-105 | a built message parses to what was given, the two flags exchanged |
| MessageFormat.WrittenLayout | unixdomainsocket/include/Message.cpp:137-152 | the byte offset, order and value of every field of a built message |
| MessageFormat.ReadLayout | unixdomainsocket/include/Message.h:15-23 | which bytes, with which sign, every parsed field comes from |
| MessageFormat.SignedRanges | unixdomainsocket/include/Message.h:15-23 | the ranges of int16_t and int32_t, and the conversion to int32_t |
| MessageObjects.Message.Build | unixdomainsocket/include/Message.cpp:88-105 | the bytes of the built message, with the paths for a negative length and null data |
| MessageObjects.Message.FromBytes | unixdomainsocket/include/Message.cpp:106-113 | a copy of the buffer |
| MessageObjects.Message.SetHeader | unixdomainsocket/include/Message.cpp:137-152 | writes the 20 header bytes and nothing else |
| MessageObjects.Message.SetBody | unixdomainsocket/include/Message.cpp:153-159 | writes the body and nothing else |
| MessageObjects.Message.AppendData | unixdomainsocket/include/Message.cpp:121-133 | appends, keeping the recorded size equal to the buffer's |
| MessageObjects.Message.GetMessageSize | unixdomainsocket/include/Message.cpp:134-136 | always a 32-bit value, and the size itself if and only if that fits |
| MessageObjects.MessageParser.constructor | unixdomainsocket/include/Message.cpp:18-34 | loses nothing: header and data give the message back, and a built message gives its request back; the data length is 20 less than declared, and right if and only if the declared length is |
| MessageObjects.MessageParser.IsHeader | unixdomainsocket/include/Message.cpp:58-60 | whether the bytes parsed began with the magic bytes 32 54 76 98 |
| MessageObjects.MessageManager.Add | unixdomainsocket/include/Message.cpp:161-167 | stores a copy under a non-negative key |
| MessageObjects.MessageManager.Remove | unixdomainsocket/include/Message.cpp:168-174 | forgets the key and says whether it was there |
| MessageObjects.MessageManager.IsPerfectMessage | unixdomainsocket/include/Message.cpp:175-182 | declared length equals 32-bit size |
| MessageObjects.MessageManager.MessagePop | unixdomainsocket/include/Message.cpp:187-194 | hands out the stored value and forgets it |
| MessageObjects.AddThenPop | unixdomainsocket/include/Message.cpp:161-194 | what is added under a key is taken out once, unchanged; then the key is absent and all others are as before |
| Reassembly.EveryRunIsExplained | unixdomainsocket/include/UnixDomainSocketClient.cpp:149-178 | in every run, delivered messages are complete, start with the magic value, and are disjoint groups of consecutive chunks in order of arrival |
| Reassembly.GroupIsSegment | unixdomainsocket/include/UnixDomainSocketClient.cpp:149-178 | so each is a contiguous segment of the received stream |
| Reassembly.DeliveredSizes | unixdomainsocket/include/Message.cpp:175-182 | in every run, each delivered message has exactly its declared size if and only if its size is below 2^31 |
| Reassembly.BoundedGroupsKeepSizes | unixdomainsocket/include/Message.cpp:175-182 | so all have if no header chunk and its continuations exceed 2^31 - 1 bytes, however many bytes arrive in all |
| Reassembly.AllSizesKept | unixdomainsocket/include/Message.cpp:175-182 | all have if and only if every maximal group is below 2^31 bytes at its first boundary |
| MessageStreams.OversizedMessageDelivered | unixdomainsocket/include/Message.cpp:134-136 | a run of chunks below 2^31 bytes each that delivers 2^32 + 20 bytes with a declared length of 20 |
| Reassembly.GroupDelivery | unixdomainsocket/include/UnixDomainSocketClient.cpp:149-178 | a header chunk and its continuations are delivered if and only if a chunk ends at the declared length as the 32-bit comparison sees it, and then exactly up to the first such chunk |
| Reassembly.BoundaryIsDeclaredLength | unixdomainsocket/include/Message.cpp:175-182 | below 2^31 bytes that is the declared length itself, reached by at most one chunk |
| Reassembly.EveryRunIsExpected | unixdomainsocket/include/UnixDomainSocketClient.cpp:149-178 | every run delivers exactly the message of each maximal group that has such a chunk, in order, and nothing else |
| MessageStreams.MessageDelivery | unixdomainsocket/include/UnixDomainSocketClient.cpp:136-178 | a built message cut into chunks of its own is delivered if and only if no later chunk begins with the magic value, whatever was held before |
| MessageStreams.MessagesAreIndependent | unixdomainsocket/include/UnixDomainSocketClient.cpp:136-178 | a badly cut message harms no other: the run delivers what each message's chunks deliver alone |
| MessageStreams.EndToEnd | unixdomainsocket/include/UnixDomainSocketClient.cpp:136-178 | built messages, each cut into chunks of its own and none at the magic value, are delivered exactly once, in order, byte for byte |
| MessageStreams.StreamDelivery | unixdomainsocket/include/UnixDomainSocketClient.cpp:136-178 | a stream of built messages, cut into chunks in any way, is delivered message by message if and only if it is cut per message, whatever was held before |
| MessageStreams.CutPerMessageByPosition | unixdomainsocket/include/UnixDomainSocketClient.cpp:136-178 | being cut per message means that no chunk spans the start of a message and the magic value begins a chunk only where a message begins |
| MessageStreams.SpanningChunk | unixdomainsocket/include/UnixDomainSocketClient.cpp:136-178 | a stream in which a chunk spans two messages never arrives as sent |
| MessageStreams.NextConnection | unixdomainsocket/include/UnixDomainSocketClient.cpp:132-197 | the same condition decides it for the stream of a later connection, whatever the earlier ones received |
| MessageStreams.SharedGroup | unixdomainsocket/include/UnixDomainSocketClient.cpp:149-178 | of the messages in one group the first is delivered if and only if a chunk ends with it, and no other ever is |
| MessageStreams.CoalescedMessagesAreLost | unixdomainsocket/include/UnixDomainSocketClient.cpp:149-178 | in particular two messages that fill one chunk are both lost |
| Reassembly.RunConcat | unixdomainsocket/include/UnixDomainSocketClient.cpp:149-178 | a run continues from the held partial message alone |
| SocketClient.Client.OnReadable | unixdomainsocket/include/UnixDomainSocketClient.cpp:125-178 | one read event is one step of the state machine; callback and waiting requests get the delivered message |
| SocketClient.Client.ReadBurst | unixdomainsocket/include/UnixDomainSocketClient.cpp:136-146 | the message holds all reads joined |
| SocketClient.Client.StoreChunk | unixdomainsocket/include/UnixDomainSocketClient.cpp:149-158 | a header replaces, other data extends or is dropped |
| SocketClient.Client.Deliver | unixdomainsocket/include/UnixDomainSocketClient.cpp:162-177 | files the response if waited for, then calls back |
| SocketClient.Client.Serve | unixdomainsocket/include/UnixDomainSocketClient.cpp:120-181 | a run of events hands the callback exactly what the state machine delivers |
| SocketClient.WriteMessage | unixdomainsocket/include/UnixDomainSocketClient.cpp:201-214 | under any partial writes and errors exactly the prefix the positive answers add up to is sent, and the whole message if and only if they suffice |
| SocketClient.TotalOfErrors | unixdomainsocket/include/UnixDomainSocketClient.cpp:205-208 | errors among the answers count for nothing, wherever they are |
| SocketClient.WriteDespiteErrors | unixdomainsocket/include/UnixDomainSocketClient.cpp:201-214 | a write with errors in between sends the plain sum of the counts before and after, or everything if that suffices |
| SocketClient.WriteInTurn | unixdomainsocket/include/UnixDomainSocketClient.cpp:201-214 | two writes in turn send what one with all their answers does |

## Left out

- Epoll, sockets, named pipes, threads, sleeps and printing: operating-system plumbing around the modelled steps.
- The server's accept and registration path and its session map: its reassembly is the client's, keyed by session.
- `tcp_with_boost_asio/include/Asio*` and the Boost headers other than the four modelled: library plumbing or compile-time machinery.
- Fixed-width wrap-around in `rational`: integers are unbounded, except for the range results above. In particular the second exception of `normalize` (a denominator that stays negative) cannot occur.
- `rational` streams, narrowing conversions, postfix operators and the derived comparison operators: one-line wrappers over modelled members.
- `offset_separator` and the deprecated `char_delimiters_separator`: easy members.
- MessageObjects.MessageParser.constructor: needs 20 bytes, as the original does; with fewer it would read past the buffer, and the second `Parse`, which checks for that, is not used by the modelled callers.
- SocketClient.Client.OnReadable: needs a read event of 20 bytes to 2^31 - 1 bytes, since the original parses every event without a check and converts its size to 32 bits.
- SocketClient.WriteMessage: needs a message below 2^31 bytes, the range of its position counter, and stops when the given answers run out where the original retries for ever.
- CrcBasic.Crc.ProcessBits: needs a bit count of at most 8; a larger one shifts by a negative amount in the original.
- CrcOptimal.AugmentedCrc: needs a width of at least 8; a smaller one shifts by a negative amount in the original.
- The loop of `SendMessage` that polls for a response: timing only; filing the response is in `SocketClient.Client.Deliver`.
