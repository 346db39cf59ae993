# A verified model of the core of yaal

yaal is a C++ base library. This project models six of its components in Dafny and proves what they are for.

- **Decimal numbers** (`HNumber`): a sign and leaves, the digits to the base 10^9, kept in arrays that are changed in
  place. `Leaves` gives the one meaning everything is measured by, `Val`, the value of a run of leaves. `Addition` is the
  aligned add/subtract kernel, `Chunks` the zero-filled growing storage and multiplication by a leaf, `Karatsuba` the
  product, `Division` the long division (TAOCP volume 2, section 4.3.1, Algorithm D), `Numerals`, `Decimal`,
  `Quotients`, `Dividends` and `Rounding` the numbers as real values, `Digits` what digits and precisions mean for
  values, `Text` their notation, `TextForms` how any text is read, `TextStorage` the characters kept in the bytes of
  leaves, and `Number` the class itself with its two arrays, its sizes, its sign and its precision.
- **Red-black tree** (`HSBBSTreeBase`): nodes with parent links. `TreeShape` has the abstract trees and the path from a
  node to the root, `Links` ties them to the fields of the nodes, `TreeExchange` and `TreeRemoval` treat the physical
  exchange of nodes and removal, `TreeOrder` the steps of an iterator, `TreeWays` the shape of a tree told by the ways
  down from its root, and `BalancedTree` the class.
- **Permissive UTF-8** (`HPermissiveUTF8Decoder`, `string_to_bytes`): `Utf8` splits bytes into sequences and `\xHH`
  escapes, `Decoder` is the byte-level state machine with its widening buffer, `Encoder` the way back, `Utf8Forms` tells
  both byte by byte, and `ByteRoundTrip` connects them.
- **Buffered stream** (`HStreamInterface`): one cache that is either read ahead or written behind. `Tokens` says which
  bytes a token is, `BufferedStream` has the class, `StreamRuns` whole runs against a stream without a buffer.
- **Threads** (`HReadWriteLock`, `HSemaphore`): `ReadWriteLock` and `Semaphore` are protocols of steps that any number
  of threads take in any order, each step tied to a method on the shared fields.
- **Calendar** (`mkgmtime`): `Calendar` has the closed form and an independent day count by years and months.

Files hold one module each; `dafny verify dfyconfig.toml` checks them all. In the number modules `a`, `b`, `q` are the
numerals of dividend, divisor and quotient before or after an operation, and a *numeral* is the leaves, the number of
leaves in front of the point and the sign.

## Findings

What follows is true of the code, and is stated by the members named.

- **Division in place by a fraction can read leaves left over from earlier operations on the same object.**
  `divide_by_leaf` moves the point to the right and takes in what lies in storage behind the number
  (hcore/hnumber.cxx:1074-1086). Cutting a number short leaves its old leaves there. `Numbers.SumByHalf`: with x = 2,
  `x += 3; x /= 0.5` makes x 10.00000001, because the sum [5] is followed by a left-over leaf 5.
  `Numbers.Number.DivideAssign` and `Dividends.DivisionIsRight` give the exact condition: the quotient is that of the
  numbers if, and (when it is exact or has a leaf behind the point) only if, the leaves in storage in the places taken in
  are zero; a value that is kept with all its digits is the ratio just then. A divisor that keeps two or more leaves, or
  that has leaves in front of the point, is never affected, nor is a number parsed into new storage. `operator /` is not
  affected at all, since it divides a copy (hcore/hnumber.cxx:1013-1019): `Numbers.Number.Divide`.
- **Losing digits loses precision, below the least precision there is.** When `normalize` cuts digits off it lowers the
  precision to the digits that are left (hcore/hnumber.cxx:1525-1535), though 16 is the least that can be set
  (hcore/number.hxx:18). Every operation states the precision it leaves (`Digits.PrecisionAfter`), and
  `Digits.WholeCountsAsExact`: what is left counts as exact if and only if it is whole, and has precision 0 then.
  `Numbers.LosePrecision`: with precision 16, 4e-16 times 2500000000000000.0000000000000001 divided by 3 is 0.
- **A number read as zero depends on what is behind it.** "1, 17" is read as 1 and "0, x" as 0, but "0, 17" is refused:
  the test that excludes malformed points looks for the next digit anywhere in the text (hcore/hnumber.cxx:471-496).
  `TextForms.RefusedForDigitsBehind` shows it, and `TextForms.ReadOrRefused` says exactly which texts are refused.
- **`x -= x` doubles x.** Subtraction changes the sign of the number before it adds (hcore/hnumber.cxx:961-972), and for
  the number itself that changes both operands. `Numbers.Number.SubtractAssign` states the value, which is right only for
  zero.
- **Rounding can read an array that was given up.** After the carry `round` strips zeros through a pointer taken before
  `add_leaf_low`, which may move the leaves to a larger array (hcore/hnumber.cxx:1704-1729). `Numbers.Number.Round`
  says exactly when it does: when the number grows a leaf and the leaves kept filled the old array. With a digit behind
  the point to keep, the first read is then just behind the end of the old array. `Numbers.RoundInFullStorage`: a copy of
  999999999.99 rounded to one digit. The model itself reads the new array.
- **Putting bytes back behind a large write sends them to the device.** A write larger than the free cache that first
  empties a non-empty cache leaves the cache marked as write-behind while it is empty. `do_unread` then stores the bytes
  in a write-behind cache, and the next flush writes them (hcore/hstreaminterface.cxx:1282-1293, 1363-1372).
  `Streams.BufferedStream.PutBackAfterLargeWrite` shows it, `PutBack` says exactly when; the assertion in `do_unread`
  catches it in builds with assertions.
- **Whether a stream counts as valid after an empty token depends on buffering.** A stop-set read that finds its
  delimiter at once makes the stream invalid when the delimiter had to be fetched from the device, but not when it was
  read ahead (hcore/hstreaminterface.cxx:698-699). `Streams.BufferedStream.ReadDecided` gives the exact condition;
  `PeekThenRead` and `ReadUnpeeked` read the same bytes and differ.
- **A write lock inside a read lock admits readers.** Only an assertion keeps a thread that reads from asking to write
  (hcore/hthread.cxx:622). Without it a thread is inside a write acquisition while others read:
  `ReadWriteLocks.WriterAmongReaders` is such a run. `ReadWriteLocks.ReadersJoin`: in any reachable state another thread
  can come in to read beside a thread inside acquisitions if and only if the outermost of these is for reading.
- **A semaphore that starts below zero lets everyone through.** `wait` sleeps only at zero (hcore/hthread.cxx:412-416).
  `Semaphores.PermitsBound`: in all runs no more waits complete than there are permits if and only if the initial value is
  not negative.
- **Dates before the year 0 are off by a day, except in leap years.** Division that truncates and the correction for
  years that are not leap years do not fit together there (hcore/htime.cxx:530). `Calendar.ClosedForm` measures the closed
  form against the count of days of the years, for every year; `Calendar.BrokenTime.MkGmTime` and `Calendar.ExactWhen`
  give the exact condition, and `Calendar.LateYearEnds` shows two days in a row with the same time at the end of most of
  these years. The weekday counted from Sunday is zero or negative there: `Calendar.WeekdayOfDay`.
- **The days of years beyond 5879489 do not fit.** The sums of the closed form are computed in 32 bits
  (hcore/htime.cxx:530): `Calendar.YearsInRange` has the exact range.

## Model

| member | source | states |
|---|---|---|
| Chunks.Realloc | hcore/hchunk.cxx:65-88 | Storage that has to grow keeps its contents and is zero behind them, up to the least power of two that is enough; storage that is large enough stays the same. |
| Addition.MutateAddition | hcore/hnumber.cxx:789-898 | The aligned kernel, with operands that lack leaves in front or behind and a result that may lie over an operand, adds or subtracts the values; what is carried out is returned and added in front, nothing outside the result changes. |
| Karatsuba.Multiply | hcore/hnumber.cxx:1547-1678 | For leaf runs of any length, with leading zero leaves and unequal sizes, the zeroed result holds the product of the values in exactly fxs + fys leaves and zeros behind; for a zero factor there are no leaves and the storage is untouched. |
| Karatsuba.MultiplyByHalves | hcore/hnumber.cxx:1555-1644 | The products of halves, added and subtracted over one buffer with pending carries, make up the product. |
| Karatsuba.Schoolbook | hcore/hnumber.cxx:1645-1675 | The schoolbook branch meets the same contract. |
| Division.Guess | hcore/hnumber.cxx:1316-1351 | After normalisation the guess with its two tests is the quotient leaf or one more. |
| Division.Correct | hcore/hnumber.cxx:1352-1363 | One more comparison makes the guessed leaf the quotient of sample and divisor, with the multiple of the divisor stored. |
| Division.NextLeaf | hcore/hnumber.cxx:1316-1367 | The leaf is the quotient of the sample by the divisor; the remainder, less than the divisor, is left in the sample in place, and no borrow escapes. |
| Division.Rounds | hcore/hnumber.cxx:1242-1371 | Quotient leaves times divisor plus the sample are the dividend read so far, continued with zeros; the rounds end when the dividend is used up without a remainder or enough leaves are there. |
| Quotients.Remainder | hcore/hnumber.cxx:1121-1386 | For a quotient q of a by b, the magnitude of a falls short of the multiple of b by less than one unit of the last leaf of q, and by nothing if the division is exact. |
| Quotients.ScaledQuotient | hcore/hnumber.cxx:1155-1168 | Multiplying dividend and divisor by the same factor changes nothing: q is the quotient of the one pair if and only if it is that of the other. |
| Quotients.QuotientBySingleLeaf | hcore/hnumber.cxx:1067-1111 | What the single-leaf division leaves in storage, its zeros and its remainder, is the quotient by a divisor of one leaf and zero leaves around it; it comes out exactly when the remainder is zero. |
| Quotients.LongQuotient | hcore/hnumber.cxx:1176-1384 | The leaves of the rounds, with the point where the code puts it, are the quotient of the whole numbers; if the rounds did not end because it came out, it does not come out before the last leaf. |
| Dividends.QuotientReadRight | hcore/hnumber.cxx:1074-1086 | The quotient of the dividend as read, with storage behind it taken in, is the quotient of the dividend if and only if the places taken in are zero. |
| Dividends.DivisionIsRight | hcore/hnumber.cxx:1121-1386 | Whatever path the division takes, its result is the quotient of the two numbers, and its value the ratio fitted to the precision, when the places it takes in are clear. Only then, for a quotient that is exact or has a leaf behind the point; and a value kept with all its digits is the ratio only then. The precision meant is pinned by `Digits.PrecisionOfQuotient`, the fitted value by `Digits.QuotientIsClose`. |
| Dividends.FittedQuotient | hcore/hnumber.cxx:1210-1217 | Cutting the computed leaves off to the precision is cutting the true ratio off: enough leaves are produced. |
| Digits.PrecisionOfQuotient | hcore/hnumber.cxx:1209-1217 | The precision of a quotient is that of the dividend if the divisor keeps one leaf or both values have fewer digits than their precisions, and otherwise the lesser of the two. |
| Digits.DigitsOfQuotient | hcore/hnumber.cxx:1098-1217 | The leaves that are computed are just enough for the dividend's precision, for both precisions together, or for the lesser one, in these cases. |
| Digits.QuotientIsClose | hcore/hnumber.cxx:1121-1386 | The value kept is on the same side of zero as the ratio of the two numbers, not larger, and less than 10^-p away from it, where p is the precision of the dividend if both numbers have fewer digits than their precisions, and otherwise the lesser precision. A quotient that comes out is kept if the divisor keeps one leaf or both numbers have so few digits. |
| Digits.QuotientComesOut | hcore/hnumber.cxx:1098-1384 | The value kept is the ratio itself if that has no more digits than the dividend's precision rounded up to leaves, for a divisor of one leaf, or than both precisions together rounded up to leaves, less one leaf, for two numbers of few digits. |
| Numbers.Number.MultiplyByLeaf | hcore/hnumber.cxx:1045-1065 | The number becomes its multiple by the leaf, zero included, with a carry in front and zero leaves behind dropped; what lies behind in storage is the old storage. |
| Numbers.Number.DivideByLeaf | hcore/hnumber.cxx:1067-1111 | The number becomes the quotient of the dividend as read by the leaf, with as many leaves as the precision asks for unless it comes out. |
| Numbers.Number.DivideAssign | hcore/hnumber.cxx:1121-1386 | Division in place fails exactly by zero. Otherwise the computed leaves are the quotient if and only if (as above) no leaf left in storage is taken in; then the value falls short of the ratio by less than 10^-p, with p spelled out from the two precisions, and is the ratio where that comes out soon enough. The precision it leaves is stated. |
| Numbers.Number.Divide | hcore/hnumber.cxx:1013-1019 | `operator /`, for all numbers and the number itself: by zero it fails; otherwise the computed leaves are the quotient, the remainder is less than the divisor times one unit of the last leaf and zero if it is exact, and the value falls short of the ratio by less than 10^-p, with p the precision of the dividend if both values have fewer digits than their precisions and otherwise the lesser one. No condition on storage is left. |
| Numbers.SumOfTwoAndThree | hcore/hnumber.cxx:908-951 | Adding 2 and 3 leaves a second 5 in storage behind the sum. |
| Numbers.SumByHalf | hcore/hnumber.cxx:1067-1111 | With x = 2, `x += 3` and then `x /= 0.5` make x 10.00000001, whatever the precision; the computed leaves are not the quotient. |
| Numbers.Number.AddAssign | hcore/hnumber.cxx:908-951 | The sum of exact numbers is exact and canonical; otherwise it is cut off to the places and the precision the code chooses. Adding a number to itself is included. The precision it leaves is stated. |
| Numbers.Number.SubtractAssign | hcore/hnumber.cxx:961-972 | The difference of exact numbers is exact and canonical. Subtracted from itself a number becomes twice itself, which is the difference only for zero. |
| Numerals.Doubled | hcore/hnumber.cxx:908-951 | Adding a number to itself doubles it, exact or not. |
| Numerals.ExactSum | hcore/hnumber.cxx:908-951 | For exact operands the places that are kept lose nothing, whatever their signs. |
| Digits.SumIsClose | hcore/hnumber.cxx:908-951 | A sum is exact if both numbers have fewer digits than their precisions. Otherwise it has no digits behind its precision and is less than two units of the last one off. Its precision is that of the only number that does not have so few digits; of two such numbers, that of the shorter fraction. |
| Digits.SumIsCut | hcore/hnumber.cxx:908-951 | A sum that is not exact is that of the numbers cut off behind as many leaves as the longer fraction has, but no more leaves than its precision has digits, cut off behind these digits. |
| Numbers.Number.MultiplyAssign | hcore/hnumber.cxx:984-1011 | The product of exact numbers is exact; otherwise it is cut off to the precision chosen. Squaring in place is included. |
| Digits.ProductIsClose | hcore/hnumber.cxx:984-1011 | A product is exact if both numbers have fewer digits than their precisions. Otherwise it falls short of the product of the values by less than one unit of the last digit of its precision: that of the only number without so few digits, or of the shorter fraction, or of the longer number. |
| Digits.DigitsAreLeast | hcore/hnumber.cxx:706-712 | The digits counted from the leaves are the fewest that the value can be written with. |
| Digits.ExactIsFew | hcore/hnumber.cxx:714-724 | A number is exact just if its value has no digits or fewer than its precision. |
| Digits.CutOffBehind | hcore/hnumber.cxx:1525-1533 | Cutting a value off behind p digits gives the only value of p digits that is no larger, on the same side of zero, and less than 10^-p away. |
| Digits.WholeCountsAsExact | hcore/hnumber.cxx:1525-1535 | What is left of a number that lost digits counts as exact if and only if it is whole; its precision is 0 then. |
| Numbers.LosePrecision | hcore/hnumber.cxx:984-1386 | With precision 16, 4e-16 times 2500000000000000.0000000000000001 and then divided by 3 in place is 0. |
| Numbers.Number.AbsoluteLower | hcore/hnumber.cxx:730-750 | The comparison of leaves is the order of the magnitudes of canonical numbers. |
| Numbers.Number.Equals | hcore/hnumber.cxx:752-757 | Canonical numbers are equal exactly when their values are. |
| Numbers.Number.Less | hcore/hnumber.cxx:763-775 | The order is the order of the values. |
| Numerals.SameValue | hcore/hnumber.cxx:752-757 | A value has only one canonical form. |
| Numbers.Number.Normalize | hcore/hnumber.cxx:1491-1545 | Any stored leaves become canonical with the same value, or, when the precision is not raised, the value cut off to it. The precision rises above the digits of a value that is kept, and falls to the digits left of one that loses digits. |
| Numbers.Number.Round | hcore/hnumber.cxx:1687-1734 | The magnitude becomes floor(x 10^s + 1/2) / 10^s, the sign stays unless nothing is left, and the number is canonical. Its leaves move to another array exactly when it grows a leaf and those kept filled the old one. |
| Numbers.RoundInFullStorage | hcore/hnumber.cxx:1704-1729 | 999999999.99 in an array of two leaves, rounded to one digit, becomes 1000000000 in a new array; the place that is read first after the carry is just behind the end of the old one. |
| Numbers.Number.AddLeafLow | hcore/hnumber.cxx:1765-1797 | A leaf added at a place is added to the value up to there, through any run of full leaves into a new leading leaf; the leaves behind stay. |
| Rounding.RoundedLeaves | hcore/hnumber.cxx:1696-1727 | Leaves cut off and raised by one unit of their last digit when the next digit is 5 or more are the number rounded. |
| Rounding.NextDigit | hcore/hnumber.cxx:1710-1714 | The digit the code looks at is the first one that is cut off. |
| Digits.RoundedToNearest | hcore/hnumber.cxx:1687-1734 | Rounding to p digits gives the only magnitude of p digits that is less than half a unit too small or at most half a unit too large. |
| Numbers.Number.ToString | hcore/hnumber.cxx:616-649 | The text is a sign, digits and perhaps a point and digits that denote the magnitude, with no superfluous zero. It is spelled, with a zero behind it, in the storage of the cache, which holds nothing but leaves afterwards too. |
| TextStorage.StillLeaf | hcore/hnumber.cxx:616-649 | A leaf with one of its bytes overwritten by a character of a notation is a leaf, whatever its other bytes are. |
| Numbers.Number.FromString | hcore/hnumber.cxx:449-614 | For every way to take a text apart into a front, a sign, digits, a point, digits and a rest, told by characters alone: it is refused or the number is canonical with the value sign, digits, digits / 10^n, leading and trailing zeros included. The precision becomes the old one or one more than the digits of the number, and new storage is clear behind it. |
| TextForms.ReadOrRefused | hcore/hnumber.cxx:449-614 | A text is refused if and only if no digit is where the number should be, or only zeros are in front of the point, no digit is behind it, and what follows the zeros has digits but none among its first two characters; any other text is read as the digits denote. |
| TextForms.PartsOf | hcore/hnumber.cxx:449-484 | Every text with a character that a number can start with has such parts. |
| TextForms.RefusedForDigitsBehind | hcore/hnumber.cxx:471-496 | "1, 17" is read as 1 and "0, x" as 0, but "0, 17" is refused. |
| TextForms.PrintedDenotes | hcore/hnumber.cxx:616-649 | What is printed is a plain notation of the magnitude, told by characters alone. |
| TextForms.OneNotation | hcore/hnumber.cxx:616-649 | A magnitude has only one such notation. |
| Text.PrintedThenParsed | hcore/hnumber.cxx:449-649 | A numeral is what the notation of a canonical number is read as if and only if it is that number. |
| Text.PrintedDigits | hcore/hnumber.cxx:616-649 | The digits that are printed denote the magnitude, without superfluous zeros. |
| Text.PrintedIsPlain | hcore/hnumber.cxx:616-649 | A notation holds no spacer and no exponent. |
| Numbers.Number.PrintAndParse | hcore/hnumber.cxx:449-649 | Printing one number and parsing the text into another restores leaves, point and sign. |
| BalancedTree.SelfBalancingTree.Insert | hcore/hsbbstree.hxx:440-463 | A fresh red node hung at an empty place: the tree is red-black again, its order is the old one with the node beside its parent, and at most two rotations are done. |
| BalancedTree.SelfBalancingTree.InsertRebalance | hcore/hsbbstree.cxx:104-146 | From a red node over a balanced subtree the walk up restores the red-black rules and keeps the order. |
| BalancedTree.SelfBalancingTree.RotateLeft | hcore/hsbbstree.cxx:148-178 | The links become those of the rotated tree, wherever the node is; one rotation is counted. |
| BalancedTree.SelfBalancingTree.RotateRight | hcore/hsbbstree.cxx:180-201 | The mirror image. |
| BalancedTree.SelfBalancingTree.RemoveNode | hcore/hsbbstree.cxx:203-241 | Any node, also one exchanged with an adjacent predecessor or at the root: the tree is red-black again, its order is the old one without exactly that node, and at most three rotations are done. |
| BalancedTree.SelfBalancingTree.RemoveRebalance | hcore/hsbbstree.cxx:243-321 | With one black node too few below, the walk up restores the red-black rules. |
| BalancedTree.SelfBalancingTree.Swap | hcore/hsbbstree.cxx:347-435 | Two nodes of consistently linked nodes change places, adjacent ones too: every link to the one leads to the other. |
| BalancedTree.SelfBalancingTree.Next | hcore/hsbbstree.cxx:22-49 | By parent links alone: the next node in order, the first one from null, null after the last. |
| BalancedTree.SelfBalancingTree.Previous | hcore/hsbbstree.cxx:51-78 | The previous node in order, the last one from null. |
| BalancedTree.SelfBalancingTree.Traverse | hcore/hsbbstree.cxx:22-49 | Steps from null to null visit all nodes once and in order. |
| BalancedTree.HeightOfValid | hcore/hsbbstree.cxx:104-321 | 2^height is at most (size + 1)^2 in every tree that the operations can reach. |
| TreeWays.RedBlackByWays | hcore/hsbbstree.cxx:104-321 | The rules that every operation keeps are those of red-black trees: the root is not red, no red node is right below a red one, and all ways down pass equally many black nodes. |
| TreeWays.LongestWay | hcore/hsbbstree.cxx:104-321 | The height is the length of a way down. |
| TreeWays.NoLongerWay | hcore/hsbbstree.cxx:104-321 | No way down is longer than the height. |
| TreeWays.OrderBySides | hcore/hsbbstree.cxx:22-78 | In the order that the operations keep, what is below the left link of a node comes before it, and what is below the right link after it. |
| TreeOrder.StepsUndo | hcore/hsbbstree.cxx:22-78 | A step forth and a step back are inverses, over null too. |
| TreeOrder.WalkVisitsAll | hcore/hsbbstree.cxx:22-78 | The k-th step from null is at the k-th node, and the walk ends at null after the last. |
| Decoder.Utf8Decoder.PushBack | hcore/hcore.cxx:143-159 | Appending a character keeps those in front, also when the whole buffer is widened in place. |
| Decoder.WidenOneToTwo | hcore/hcore.cxx:148 | Widening backward in place keeps every code unit. |
| Decoder.WidenTwoToFour | hcore/hcore.cxx:150 | The same from two to four bytes. |
| Decoder.Utf8Decoder.DecodeBytes | hcore/hcore.cxx:174-245 | The state machine with its backtracking produces the code units of the sequences and escapes of the bytes before the first NUL or the limit. |
| Utf8Forms.DecodingIsReference | hcore/hcore.cxx:174-245 | What the pieces stand for is the text read byte by byte: a byte of ASCII or a whole sequence of two to four bytes is the code point that its bits make up, and any other byte is escaped by itself, broken sequences too. |
| Decoder.Utf8Decoder.ReadOut | hcore/hcore.cxx:239-243 | The code units put together again from the bytes of the buffer, whatever their width, are those that were appended. |
| Utf8.NothingLost | hcore/hcore.cxx:174-245 | Every byte is in exactly one sequence or escape, in order. |
| Utf8.FirstPieces | hcore/hcore.cxx:174-245 | A sequence is taken whole; what is escaped is a lead byte that is none, or with fewer tail bytes than it announces. |
| Encoder.Unescape | hcore/hcore.cxx:279-302 | The loop that erases and overwrites in place computes the bytes with escapes replaced, from the left; which bytes that are is told by the next three rows. |
| Utf8Forms.DigitOfTable | hcore/hcore.cxx:162-272 | The value of a hexadecimal digit is its place in "0123456789ABCDEF" and in "0123456789abcdef"; digits are written in small letters. |
| Utf8Forms.EscapeReplaced | hcore/hcore.cxx:268-302 | An escape is replaced by its byte for every spelling of the two digits, capital, small or mixed, if anything is behind it. |
| Utf8Forms.OtherByteStays | hcore/hcore.cxx:279-302 | Any other byte stays, and nothing behind a zero byte changes. |
| Encoder.StringToBytes | hcore/hcore.cxx:274-304 | The bytes of the UTF-8 form, unescaped, with the terminator. |
| Utf8Forms.EncodedForm | hcore/hstring.cxx:715-726 | Each code point up to 10FFFF is encoded in the bytes its range asks for, and these decode to it. |
| ByteRoundTrip.RoundTrip | hcore/hcore.cxx:174-304 | Decoding and encoding gives the bytes and the terminator back if and only if every multi-byte sequence accepted is the shortest form for its code point, which is up to 10FFFF, and no literal escape is in the input. (Section 4 of RFC 3629 also excludes surrogates; these come back.) |
| Streams.BufferedStream.SemanticRead | hcore/hstreaminterface.cxx:627-715 | A failed read consumes nothing; any other takes the bytes in front, at most a token and exactly the token, told by membership of the bytes alone, unless the device runs dry. With nothing read ahead before, no more than the buffer size, without buffering one byte, is read ahead after. What was accepted for writing is written. `valid` afterwards is stated exactly. |
| Tokens.TokenByMembers | hcore/hstreaminterface.cxx:585-625 | Up to a stop set the token takes the bytes that are neither zero nor in the set, and the first other one below the limit just if it is to be extracted; of the bytes in a set it takes those that are zero or in it. It is decided once that byte or the limit is there. |
| Streams.BufferedStream.ReadDecided | hcore/hstreaminterface.cxx:627-715 | A token that the unread bytes decide, from a device that neither fails nor runs dry, leaves a valid stream valid, except that after an empty token up to a stop character it is valid just if something was read ahead. |
| Streams.BufferedStream.PeekThenRead | hcore/hstreaminterface.cxx:698-699 | After a peek the empty token leaves the stream valid. |
| Streams.BufferedStream.ReadUnpeeked | hcore/hstreaminterface.cxx:698-699 | With nothing read ahead the same read of the same bytes leaves it invalid. |
| Streams.BufferedStream.ReadRetry | hcore/hstreaminterface.cxx:563-583 | Interrupted reads are repeated: a good stream gives a token, another one nothing. |
| Streams.BufferedStream.Input | hcore/hstreaminterface.cxx:1295-1325 | The bytes delivered are the first unread ones, the cache first; failure consumes nothing. |
| Streams.BufferedStream.Peek | hcore/hstreaminterface.cxx:779-796 | The next byte is told, as a number from -128 to 127, and nothing is consumed. |
| Streams.BufferedStream.Output | hcore/hstreaminterface.cxx:1355-1385 | Written bytes followed by cached ones are the bytes accepted, in order, through the cache or past it. What fits the larger of the buffer size and the cache waits, together with what waits already or alone, unless it fills the cache; larger writes do not wait. |
| Streams.BufferedStream.Flush | hcore/hstreaminterface.cxx:1421-1431 | Afterwards nothing is pending, and nothing is lost. |
| Streams.BufferedStream.Expect | hcore/hstreaminterface.cxx:717-736 | Exactly the common front of pattern and unread bytes is consumed; the stream stays good exactly when that is the whole pattern. |
| Streams.BufferedStream.PutBack | hcore/hstreaminterface.cxx:1282-1293 | The bytes are read again first, unless the cache is empty but marked as write-behind: then they are appended to the output. |
| Streams.BufferedStream.PutBackAfterLargeWrite | hcore/hstreaminterface.cxx:1282-1385 | After a write larger than the cache that follows a smaller one, a byte put back is written to the device. |
| StreamRuns.PerformAll | hcore/hstreaminterface.cxx:627-1431 | Every run of reads, writes, peeks, flushes and changes of the buffer, on a device that does not fail, is a run of a stream without a buffer. |
| StreamRuns.PerformTwice | hcore/hstreaminterface.cxx:627-1431 | Two streams with the same contents and different buffering give the same replies, texts included, and end with the same contents. |
| StreamRuns.BufferingIsInvisible | hcore/hstreaminterface.cxx:627-1431 | The replies and the final state follow from the commands and the contents alone, for any run of any length. |
| StreamRuns.Conserved | hcore/hstreaminterface.cxx:1355-1431 | Over a run what was written is what was put, in order, and what is unread is what follows the bytes that were read. |
| ReadWriteLocks.Reached | hcore/hthread.cxx:591-649 | Over all interleavings a thread's entry, its count and its hold of the plain lock fit the acquisitions it is inside. |
| ReadWriteLocks.Exclusion | hcore/hthread.cxx:591-649 | A thread inside acquisitions holds the plain lock once, in the mode of the outermost; if that is writing, no other thread is inside any. These are the modes that were asked for: `ReadWriteLocks.NestingIsRequests`. |
| ReadWriteLocks.NestingIsRequests | hcore/hthread.cxx:591-649 | Over all interleavings the acquisitions of a thread are, mode by mode, what it asked for and has not unlocked, told from the events alone. |
| ReadWriteLocks.HeldAsRequested | hcore/hthread.cxx:591-649 | A thread that first asked for writing and has not unlocked as often as it locked holds the plain lock once for writing, and no other thread holds it at all; one that first asked for reading holds it once for reading, and no other one for writing. |
| ReadWriteLocks.WritersExclude | hcore/hthread.cxx:591-649 | Beside a thread inside whose first request was for writing, no other thread is inside. |
| ReadWriteLocks.FreeLockIsTaken | hcore/hthread.cxx:591-629 | From every reachable state a thread outside gets a lock that is free for it in four steps, in the mode it asks for. |
| ReadWriteLocks.ReentersAtOnce | hcore/hthread.cxx:591-629 | A thread inside comes in again in three steps, in any mode, and without asking for the plain lock. |
| ReadWriteLocks.NoReentry | hcore/hthread.cxx:591-649 | The plain lock is only ever asked for by a thread that does not hold it, and given up by one that then does not. |
| ReadWriteLocks.EntryErased | hcore/hthread.cxx:631-649 | Outside of the code a thread has an entry exactly while it is inside acquisitions; unlocking fails otherwise. |
| ReadWriteLocks.OnlyOthersBlock | hcore/hthread.cxx:591-629 | A thread waits only for another thread that holds the plain lock in an excluding mode. |
| ReadWriteLocks.Balanced | hcore/hthread.cxx:591-649 | Over any run, holds and nestings change by what was acquired less what was released. |
| ReadWriteLocks.WriteInsideRead | hcore/hthread.cxx:611-629 | The asserted field is set exactly when the thread asks to write inside an acquisition whose outermost reads. |
| ReadWriteLocks.WriterAmongReaders | hcore/hthread.cxx:591-629 | Without the assertion a run exists in which one thread is inside a write acquisition and another one reads. |
| ReadWriteLocks.ReadersJoin | hcore/hthread.cxx:591-649 | In every reachable state, a thread outside can come in to read while another one stays inside its acquisitions if and only if the outermost of those is for reading. |
| Semaphores.Reached | hcore/hthread.cxx:402-439 | Over all interleavings with barging, spurious and timed-out wakeups: while threads sleep, the count is at most the number of woken ones; completed waits plus the count are the initial value plus the signals, without resets. |
| Semaphores.Conserved | hcore/hthread.cxx:409-428 | From any state, permits are neither made nor lost. |
| Semaphores.CountOfEvents | hcore/hthread.cxx:409-428 | Without resets the count changes by the signals among the events less the waits among them that find it other than zero. |
| Semaphores.CountSinceReset | hcore/hthread.cxx:409-439 | After a reset the count is its value plus the signals less the waits that pass since then; a value above zero wakes all sleeping threads, any other one none. |
| Semaphores.StepKeepsInv | hcore/hthread.cxx:409-439 | Every step keeps the rule that no wakeup is lost, resets too. |
| Semaphores.Drained | hcore/hthread.cxx:409-419 | When the woken threads run on, as many waits complete as there are permits or threads, and nobody sleeps beside a permit. |
| Semaphores.PermitsBound | hcore/hthread.cxx:402-428 | In all runs without resets at most the initial value and the signals complete as waits, if and only if the initial value is not negative. |
| Semaphores.CountStaysPositive | hcore/hthread.cxx:409-439 | From a count that is not negative, no run whose resets set none makes it so. |
| Calendar.ClosedForm | hcore/htime.cxx:526-531 | For every year the closed form is the sum of the days of the years, plus the day by which negative years that are not leap years are late. |
| Calendar.BrokenTime.MkGmTime | hcore/htime.cxx:526-547 | The seconds since 1970 and the weekday are those of the closed form; they are the true ones of a valid date if and only if the year is not negative or a leap year. |
| Calendar.ExactWhen | hcore/htime.cxx:526-531 | The closed form agrees with the independent count of days exactly in these years. |
| Calendar.YearsInRange | hcore/htime.cxx:530 | The partial sums of the closed form fit 32 bits if and only if the year is between -5879489 and 5879489. |
| Calendar.OrderKept | hcore/htime.cxx:526-547 | From the year 0 on, a time is less if and only if the date and time of day are earlier. |
| Calendar.DayLater | hcore/htime.cxx:526-547 | The next calendar day at the same time of day is 86400 seconds later. |
| Calendar.WeekdayAdvances | hcore/htime.cxx:280-284 | From one day to the next the weekday advances by one modulo 7, counted from Sunday and from Monday. |
| Calendar.UnixEpoch | hcore/htime.cxx:20-41 | 1970-01-01 00:00:00 is 0 and a Thursday. |
| Calendar.EveryDayHasADate | hcore/htime.cxx:526-547 | Every day number from 0 on is that of a valid date. |
| Calendar.LeapYears | hcore/htime.cxx:31-33 | The leap years are the multiples of 4 that are not of 100, and those of 400, before the year 0 too. |
| Calendar.MonthLengths | hcore/htime.cxx:24-29 | The months have 31, 28 or 29, 31, 30, 31, 30, 31, 31, 30, 31, 30 and 31 days. |
| Calendar.FourHundredYears | hcore/htime.cxx:526-531 | 400 years, from any year on, are 146097 days, which are whole weeks. |
| Calendar.FirstOfMarch2000 | hcore/htime.cxx:526-547 | 2000-03-01 00:00:00 is 951868800 and a Wednesday. |
| Calendar.WeekdayOfDay | hcore/htime.cxx:536-541 | The weekday counted from Sunday is that of the day number, with its sign; the one counted from Monday is never negative. |
| Calendar.LateYearEnds | hcore/htime.cxx:526-547 | At the end of a negative year that is not a leap year the next day has the same time exactly if the following year counts right. |

## Left out

- Numbers: conversion from and to floating point and integers, `%`, powers, `floor`, `ceil`, `trunc`, `abs`, `++` and `--`.
- Numbers: widths of integers. Leaves fit 32 bits and the products of the guess 64 bits in the code; sizes are unbounded here.
- Numbers.Number.FromString: the spacer `_` and exponents are excluded by a precondition; the rest of the syntax is modelled.
- Numbers.Number.DivideAssign: `x /= x` is not modelled; where operands are normalised it multiplies the divisor together with the dividend before it copies it (hcore/hnumber.cxx:1156-1162). `x / x` is.
- Division.NextLeaf: the branch taken when the subtraction borrows is proved dead, so it has no counterpart; the one buffer for both samples is two arrays here.
- Tree: the search for a key, copying and destruction of trees, and allocation; the place to insert at is a parameter.
- UTF-8: the mask constants are modelled as the ranges they select; `HString` is a sequence of code units.
- Streams: the device is an arbitrary list of answers that bound how much each physical read gives; writes accept all bytes. Formatted input and output, `seek`, `reset` and `ignore` are not modelled.
- Streams: the cache is an array of bytes and its sizes are unbounded; a limit beyond 32 bits is not cut as the cast in hcore/hstreaminterface.cxx:645 would.
- Streams.BufferedStream.Peek: `char` is signed, as on the platforms where a byte from 128 on is peeked as a negative number.
- Streams: the NUL that ends a delimiter set belongs to the set, as in the code.
- StreamRuns.PerformTwice: a raw read of a number of bytes may be answered in part by what is cached, so its reply depends on buffering and it is not among the commands compared; `Input` says what it delivers.
- Threads: sections under the mutex are single steps, and calls of the pthread library do not fail.
- ReadWriteLocks.Exclusion: threads are known by a number that is never used again; the fairness of the plain lock is not modelled.
- Calendar.BrokenTime.MkGmTime: integers are unbounded; for years outside the range above the code overflows, which C++ leaves undefined.
- Calendar: local time, formatting and parsing of times, and the `mod_` functions.
