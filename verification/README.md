# Verification of the base library

Dafny models of the parts of the library whose correctness is hard to see by reading: the exact
conversions between doubles and text, the lock-free ordered hash map, the futex mutex, the condition
variable, the multi-producer queue, the slab allocator, the open-addressing map, SHA-256, substring
search and the integer conversions. `dafny verify dfyconfig.toml` checks all of it.

Sequential code keeps its shape: classes over arrays and maps with methods and loops, each proved
against functions on numbers, texts, sequences or maps. Concurrent code is a step system per
protocol: a state, one program counter per thread for any number of threads, one atomic access per
step, and theorems about every finite run. Values that no step reads and that exist only to state a
theorem are marked as history where they are declared.

## What is proved

**Doubles and text.** A magnitude of a double is its low 63 bits, with its value counted in units of
2^-1074 (`Ieee754.Units`). `NearestEven(n, d, b)` compares b with every other magnitude, infinity
standing for 2^1024, so it is the standard's round-to-nearest, ties to even, overflow included
(section 4.3.1 of IEEE 754-2019). `FloatParse.ReadFloat` says what a text is read as, apart from the
parser, and `FloatGrammar` says it without following the text: every text put together from space,
sign, digits, point, exponent and rest is read as exactly those parts, and no other text is accepted
(`FloatGrammar.Accepted`). For every decimal text the parser's answer is fixed, and `FloatParse.RoundsRight`
says of which texts it is the nearest double. While the exponent is below a million that is every text
but those worth exactly 2^-1075: there `AssembleDouble` rounds up where the even neighbour is zero,
because it asks for the mantissa's bit length where it should ask for the bits below the first
(`base/strings/number_parse.cc:155`). From a million on, the exponent accumulator has stopped at six
digits, and the answer is right exactly when the text's value and the value at the shortened exponent
both vanish or both overflow, which fewer than 99600 digits make certain. `FloatParseFailures` gives a
text for either failure. The bignum's capacity is never reached on the way, and 800 digits and one
sticky flag are enough because no rounding midpoint lies between two 800-digit decimals. What the
formatter prints is stated about the text (`FloatPrinting.Printed`): the parts it reads back as show
the exact value rounded once, in the layout of its type; under `g` there is an exponent exactly when the
rounded value is below 10^-4 or at least 10^P. Seventeen digits of either layout bring every finite
double back.

**The lock-free map.** Three protocols that meet only in a node's deletion mark, each with that mark
free to be set at any moment. A bucket chain never skips a live node, whatever inserts, removes,
helping unlinks and sweeps do, although an unlink may bring deleted nodes back; so a search cannot
miss a key held throughout. Of several inserts of a key at most one wins while its node lives. The
order list loses and repeats nothing, and an undisturbed collection leaves only live nodes linked, but
for a deleted last element of the order list. For a freed node there is the moment at which the
collector, having swept the node, read the retirement epoch it was stamped with: every guard open then
has closed. A `remove` can answer false although a live node with the key is linked throughout
(`BucketChain.RemoveMissesLive` is such a run), and only in one way: it met a newer node with the key,
marked and not yet unlinked, such as the loser of a race to insert, and stopped there. Undisturbed, it
answers true exactly when the first node with the key is unmarked.

What the calls achieve is stated of undisturbed runs, with a bound on their length, so that none of it
is true of a call that never ends: an insert adds exactly one node unless a live one with the key was
there, marked ones in its way unlinked first (`BucketChain.UndisturbedInsert`); two collections with no
guard open free what the first swept (`EpochReclamation.SweptIsFreed`). One call has no such bound:
while the first append ever made has set the head of the order list and not yet its tail, every other
append goes round in circles, however long it runs (`OrderList.StalledAppend`).

**The rest.** Mutual exclusion, no lost wakeup, and what an undisturbed call does, for the mutex and
the condition variable; first in, first out and no use after free for the queue; disjoint blocks with
stable contents for the allocator, which asks for a page only when the thread's slab is full; agreement
with a finite map, ending probes, and when the table moves, for the hash map; the standard's padded
block fold for every split of a message, its constants the roots they are defined as; the first
occurrence for the search; the nearest 64-bit value of every accepted text, and round trips, for
integers.

## Model

| member | source | states |
|---|---|---|
| DecimalBignum.BigUInt.SetU64 | base/strings/decimal_bignum.h:27-33 | the limbs hold the 64-bit value, top limb nonzero |
| DecimalBignum.BigUInt.MulAddSmall | base/strings/decimal_bignum.h:40-51 | the value becomes its product plus the addend, cut off at the capacity and nowhere below it |
| DecimalBignum.BigUInt.ShiftLeft | base/strings/decimal_bignum.h:55-81 | the value is multiplied by the power of two, with nothing lost while it fits and the top limb still nonzero |
| DecimalBignum.BigUInt.DivModSmall | base/strings/decimal_bignum.h:84-93 | quotient left in place, remainder returned, leading zero limbs dropped |
| DecimalBignum.BigUInt.BitLength | base/strings/decimal_bignum.h:96-104 | the position of the highest set bit of the value |
| DecimalBignum.BigUInt.BitAtIsBit | base/strings/decimal_bignum.h:106-110 | reading a limb's bit is reading that binary digit of the value |
| DecimalBignum.BigUInt.AnyBitBelow | base/strings/decimal_bignum.h:114-123 | true exactly when the value has a nonzero remainder by that power of two |
| DecimalBignum.BigUInt.HighBits | base/strings/decimal_bignum.h:128-143 | the leading bits as a number, and whether anything nonzero was below them |
| Ieee754.AssembledIsNearest | base/strings/number_parse.cc:158-177 | one rounding at the last place of the binade, written over the exponent field, is nearest even in the subnormal, normal, carry and overflow cases |
| Ieee754.NearestUnique | base/strings/number_parse.h:33-36 | at most one magnitude is the correctly rounded one |
| DoubleAssembly.RoundAt | base/strings/number_parse.cc:124-145 | the kept bits of mantissa and sticky bit rounded half to even at the given position |
| DoubleAssembly.AssembleDouble | base/strings/number_parse.cc:108-178 | the sign and the magnitude that the numbers say, never above infinity |
| DoubleAssembly.AssembledCorrect | base/strings/number_parse.cc:98-178 | the magnitude is the nearest even one if and only if the value is not exactly 2^-1075 written with more than one bit |
| DoubleAssembly.HalfSubnormalRoundsUp | base/strings/number_parse.cc:151-156 | a value of exactly 2^-1075 for which the code answers the smallest subnormal instead of zero |
| ScaleBounds.ScaleShiftBounds | base/strings/number_parse.cc:208-211 | the scaling shift leaves at least 2^62 times the power of ten, up to 10^1200 |
| ScaleBounds.ScaledFits | base/strings/number_parse.cc:205-211 | 800 digits scaled by the largest shift stay within the bignum |
| ScaleBounds.MidpointDigits | base/strings/number_parse.cc:180-183 | no midpoint between doubles needs more than 773 significant digits |
| DecimalScaling.MulPow10 | base/strings/number_parse.cc:193-201 | multiplication by ten to the power in chunks is the exact product, within capacity |
| DecimalScaling.DivPow10 | base/strings/number_parse.cc:213-222 | chunked division is one division by ten to the power, inexact exactly when its remainder is not zero |
| DecimalScaling.DecimalToDouble | base/strings/number_parse.cc:185-225 | the sign and the magnitude assembled from the exact product or the guarded quotient |
| DecimalScaling.NoMidpointBetweenDecimals | base/strings/number_parse.cc:180-183 | no rounding midpoint lies strictly between two consecutive decimals of 800 digits |
| DecimalScaling.TruncatedCorrect | base/strings/number_parse.cc:328-333 | a value known only to lie strictly between two such decimals rounds as the sticky flag makes it round |
| DecimalScaling.ScaledCorrect | base/strings/number_parse.cc:185-225 | digits, exponent and sticky flag give the nearest even magnitude if and only if the value is not exactly 2^-1075 |
| NumberText.SkipSpaceAndSign | base/strings/number_parse.cc:43-53 | the cursor is past the run of space and one sign, which is reported |
| NumberText.DigitsEndUnique | base/strings/number_parse.cc:25-36 | a run of digits ends at one place only |
| FloatParse.MatchWord | base/strings/number_parse.cc:227-237 | a word is matched in any case or the cursor stays |
| FloatParse.ReadFloat | base/strings/number_parse.cc:290-378 | what a text is read as, apart from the parser: its sign, digits, places, exponent and end, or a word; which texts give which parts is FloatGrammar's |
| FloatGrammar.ReadsDecimal | base/strings/number_parse.cc:313-378 | any space, any sign or none, digits with or without a point, an exponent in either case with any sign or none, or no exponent, then anything that does not continue it: read as exactly those parts, missing ones as nothing, and ending where the rest begins |
| FloatGrammar.ReadsInfinity | base/strings/number_parse.cc:296-303 | both spellings of infinity, in any case, with any sign, the short one only where the long one does not follow |
| FloatGrammar.ReadsNan | base/strings/number_parse.cc:304-311 | likewise nan |
| FloatGrammar.DecimalOfText | base/strings/number_parse.cc:313-378 | every text read as a decimal is put together from such parts |
| FloatGrammar.WordOfText | base/strings/number_parse.cc:296-311 | every text read as a word is one of those words between such parts |
| FloatGrammar.Accepted | base/strings/number_parse.cc:290-378 | so a text is read as a decimal, as infinity or as nan if and only if it is put together that way |
| FloatParse.IntegerPart | base/strings/number_parse.cc:319-334 | kept digits, dropped count and sticky flag stand for all digits read, however many |
| FloatParse.FractionPart | base/strings/number_parse.cc:336-353 | likewise after the point, with the exponent moved along |
| FloatParse.ExponentPart | base/strings/number_parse.cc:358-375 | the signed exponent the grammar reads, saturating at six digits, consumed only when a digit follows |
| FloatParse.SaturatedBounds | base/strings/number_parse.cc:367-371 | the accumulator is exact below a million; otherwise it has six digits and the exponent is at least ten times as large |
| FloatParse.DecidedCorrect | base/strings/number_parse.cc:380-395 | for every tally and exponent: short circuits and conversion give the nearest even magnitude of the value at that exponent if and only if it is not exactly 2^-1075, and the smallest subnormal there |
| FloatParse.FarApart | base/strings/number_parse.cc:367-371 | of two values whose ratio exceeds the range of doubles, the smaller vanishes unless the larger overflows |
| FloatParse.DecidedRight | base/strings/number_parse.cc:357-395 | the answer at the exponent the accumulator kept is the nearest double of the text's value if and only if RoundsRight holds, for every run of digits and every exponent text |
| FloatParse.KeptRoundsRight | base/strings/number_parse.cc:369-370 | with an exponent below a million or fewer than 99600 digits that leaves out 2^-1075 only |
| FloatParse.UnderflowCorrect | base/strings/number_parse.cc:382-387 | below the lower short circuit zero is the nearest double |
| FloatParse.OverflowCorrect | base/strings/number_parse.cc:388-392 | above the upper short circuit infinity is |
| FloatParse.ParseFloat | base/strings/number_parse.cc:290-396 | for every text: what the grammar reads, with the end, the sign, the magnitude determined, and its being nearest even exactly when RoundsRight holds; or a failure, the output left alone, when it is no number |
| FloatParseFailures.PointTextReads | base/strings/number_parse.cc:313-378 | the texts below, written with a point, are read as their digits, places and exponent |
| FloatParseFailures.HalfSubnormalText | base/strings/number_parse.cc:155-156 | the text of 2^-1075 written out is parsed as the smallest subnormal, which is not nearest |
| FloatParseFailures.LongExponentText | base/strings/number_parse.cc:369-370 | a text worth one, with a million places or more and the exponent that cancels them, is parsed as zero |
| FloatParseFailures.MillionAndOne | base/strings/number_parse.cc:367-371 | an exponent text of that kind |
| DecimalExpansion.MulPow5 | base/strings/float_format.cc:52-59 | multiplication by five to the power, thirteen at a time, is the exact product |
| DecimalExpansion.ExpandedIsValue | base/strings/float_format.cc:14-24 | the integer expanded, over its power of ten, is the double's value |
| DecimalExpansion.ExpandedBound | base/strings/float_format.cc:44-59 | every expansion stays far inside the bignum and the 800 digits |
| DecimalExpansion.ExpandExact | base/strings/float_format.cc:44-82 | the digits and exponent are exactly the value, without leading zero |
| DecimalRounding.RoundDigits | base/strings/float_format.cc:97-116 | the decision from the first dropped digit and the rest is rounding half to even of the exact value |
| DecimalRounding.Increment | base/strings/float_format.cc:122-133 | adding one in the last kept digit, with a carry out exactly when all were nines |
| DecimalRounding.RoundTo | base/strings/float_format.cc:88-134 | the kept digits show the exact value rounded half to even at that position, for any position, the carry to a new digit included |
| DecimalRounding.LeadsAt | base/strings/float_format.cc:36-42 | the exponent is that of the value's leading digit |
| DecimalRounding.LeadUnique | base/strings/float_format.cc:36-42 | a value has one leading position |
| DecimalWriting.FixedReads | base/strings/float_format.cc:169-191 | the fixed layout read back is the number of units, without leading zeros |
| DecimalWriting.CanonicalText | base/strings/float_format.cc:169-191 | a numeral without leading zero is how its value is written |
| FloatFormat.Writer.Put | base/strings/float_format.cc:141-145 | every character counted, the ones that fit stored, nothing else touched |
| FloatFormat.WriteFixed | base/strings/float_format.cc:170-191 | the digits padded around the point are the fixed layout of their value |
| FloatFormat.WriteScientific | base/strings/float_format.cc:194-220 | the digits are the scientific layout of their value, with two or three exponent digits |
| FloatFormat.WriteGeneral | base/strings/float_format.cc:223-252 | the characters written are the general text of the value, whose layout, digits and zeros PrintedGeneral states |
| FloatFormat.StrippedKeeps | base/strings/float_format.cc:231-236 | stripping changes no value and stops at a nonzero digit or the point |
| FloatFormat.FieldsAreUnits | base/strings/float_format.cc:282-290 | mantissa times power of two from the fields is the value of the bit pattern |
| FloatFormat.FormatFloatTo | base/strings/float_format.cc:264-323 | for every bit pattern, type, precision, sign and flag: the printed text and its length, and its prefix in the buffer with nothing else touched; what the text denotes is Printed's |
| FloatPrinting.SignificantRange | base/strings/float_format.cc:303-307 | exactly precision + 1 significant digits are kept, the first not zero |
| FloatPrinting.SignificantExponent | base/strings/float_format.cc:228-229 | the exponent of the rounded value is at least k if and only if the value rounded to that many digits reaches 10^k, as an inequality on the value |
| FloatPrinting.PrintedFixed | base/strings/float_format.cc:169-191 | the fixed text shows the value rounded half to even in units of its last place, with as many fraction digits as the precision asks, six by default, and a point only where asked for |
| FloatPrinting.PrintedScientific | base/strings/float_format.cc:193-220 | the scientific text has one digit before the point, not zero unless the value is, the precision's digits after it, six by default, at least two exponent digits, and shows the value rounded half to even to that many digits |
| FloatPrinting.PrintedGeneral | base/strings/float_format.cc:222-252 | the general text has an exponent if and only if the value rounded to P significant digits is below 10^-4 or at least 10^P, P being six by default and one for zero; it shows exactly that rounded value, and without the flag ends in no fractional zero and no bare point, with it in all P digits |
| FloatPrinting.Printed | base/strings/float_format.cc:264-323 | for every finite bit pattern and type: the text is a well-formed decimal with the value's sign, the parser's grammar reads it as those parts, an exponent letter stands in it exactly when it has an exponent, and it has the shape of its type |
| FloatPrinting.PrintedNonFinite | base/strings/float_format.cc:254-260 | infinities and nans are printed as the words the grammar reads, with their sign, in capitals exactly for a capital type |
| FloatRoundTrip.PrintedValue | base/strings/float_format.cc:264-307 | any text that shows a double rounded to seventeen or more significant digits denotes a value whose nearest double is that one |
| FloatRoundTrip.RoundTrip | base/strings/float_format.cc:264-323 | every finite double printed with type e and precision 16 or more, or type g and precision 17 or more, in either case, with any sign and flag, parses back to the same 64 bits, the whole text consumed |
| FloatRoundTrip.NonFiniteRoundTrip | base/strings/number_parse.cc:296-311 | infinities come back as themselves, a nan as a nan of its sign |
| FloatRoundTrip.PrintAndParse | base/strings/number_parse.cc:290-396 | formatter and parser run one after the other return the bits they were given |
| BucketChain.Access | base/containers/lock_free_ordered_map.h:227-261 | the accesses of find, insert, remove, unlink and sweep, one at a time |
| BucketChain.StepKeepsInv | base/containers/lock_free_ordered_map.h:472-519 | every access of every thread keeps: pointers skip only deleted nodes, winners have no older live rival, threads may rely on what they read |
| BucketChain.UnlinkedKeepsInv | base/containers/lock_free_ordered_map.h:246-261 | swinging a pointer past a deleted node to a stale successor drops no live node |
| BucketChain.LinkedKeepsInv | base/containers/lock_free_ordered_map.h:489-493 | prepending at the head read keeps the chain |
| BucketChain.NoLiveNodeLost | base/containers/lock_free_ordered_map.h:690-712 | in every reachable state each live node is reached from its bucket's head |
| BucketChain.FindNeverMisses | base/containers/lock_free_ordered_map.h:573-586 | a find that answers absent passed no node with the key that was linked before it began and is still live |
| BucketChain.FoundIsLive | base/containers/lock_free_ordered_map.h:573-586 | the node of a find that answers present had the key and was live at some moment of the call |
| BucketChain.OneWinner | base/containers/lock_free_ordered_map.h:492-518 | two live nodes of one key past their duplicate scan are the same node |
| BucketChain.InsertFailsOnlyAt | base/containers/lock_free_ordered_map.h:472-519 | an insert that answers false met, at a step of its call, a live node with its key other than its own |
| BucketChain.UndisturbedInsert | base/containers/lock_free_ordered_map.h:472-519 | an insert that nobody disturbs, and that suffers no spurious failure, ends within a bound and answers true if and only if no live node with the key is there when it begins; then exactly one new node is linked, live and settled, with the key; marked nodes with the key in its way are unlinked first, and no other node changes but for its link |
| BucketChain.InsertersFate | base/containers/lock_free_ordered_map.h:492-518 | a node that was linked ends settled when its insert answers true, and marked when it answers false |
| BucketChain.SearchAdvances | base/containers/lock_free_ordered_map.h:227-261 | each access of a find, of a remove, and of an insert that has linked its node, comes nearer the answer, within three accesses a node, whatever others do meanwhile |
| BucketChain.UndisturbedUnlink | base/containers/lock_free_ordered_map.h:246-261 | after an undisturbed unlink the node is not linked, and the chain is otherwise as it was |
| BucketChain.SweepCleans | base/containers/lock_free_ordered_map.h:690-712 | over any run of the bucket sweep that nobody disturbs: it ends within three accesses a node; at its end no deleted node of the bucket is linked, every live one is, and none was marked |
| BucketChain.WholeSweepCleans | base/containers/lock_free_ordered_map.h:690-712 | and one after the other all buckets: an undisturbed sweep of the table ends within that bound for each, and then a node is linked from its bucket if and only if it is not deleted |
| BucketChain.RemoveFailsOnlyAt | base/containers/lock_free_ordered_map.h:643-660 | a remove that answers false beside a live node linked before it began stopped at a newer node with the key that was already marked |
| BucketChain.RemoveNeverMisses | base/containers/lock_free_ordered_map.h:643-660 | so without a marked newer node of the key a remove that answers false left no such node live |
| BucketChain.UndisturbedRemove | base/containers/lock_free_ordered_map.h:643-660 | an undisturbed remove answers true if and only if the first node with the key on the chain exists and is unmarked; then exactly that node is marked and no longer linked, and otherwise nothing changes |
| BucketChain.RemoveMissesLive | base/containers/lock_free_ordered_map.h:643-660 | a run in which remove answers false while a live settled node with the key is there throughout |
| EpochReclamation.Step | base/containers/lock_free_ordered_map.h:60-109 | the accesses of thread birth and exit, guards, epoch advance and collection |
| EpochReclamation.StepKeepsInv | base/containers/lock_free_ordered_map.h:51-109 | every access of every thread keeps the slot ownership, pins, scans and stamps consistent |
| EpochReclamation.EpochAdvances | base/containers/lock_free_ordered_map.h:96-106 | in every run the epoch moves by one at a time, and only when every open guard has announced the current one |
| EpochReclamation.PinnedEpoch | base/containers/lock_free_ordered_map.h:85-106 | an open guard's epoch is the current one or the one before |
| EpochReclamation.OpenGuardHolds | base/containers/lock_free_ordered_map.h:85-94 | while a thread has a guard open, however deeply nested, its slot announces the epoch of the outermost one, which is the current one or the one before; otherwise none |
| EpochReclamation.GuardsNest | base/containers/lock_free_ordered_map.h:133-150 | opening and closing count, and only the outermost guard announces and unannounces |
| EpochReclamation.ThreadBorn | base/containers/lock_free_ordered_map.h:60-73 | a thread is born with a slot no other thread has, which announces nothing; a new slot is made only when every other belongs to some thread |
| EpochReclamation.ThreadExits | base/containers/lock_free_ordered_map.h:80-84 | an exit leaves its slot announcing nothing and next to be reused |
| EpochReclamation.CallsBegin | base/containers/lock_free_ordered_map.h:671-686 | a collection begins when none is running and otherwise does nothing; a staged node is kept, not yet swept |
| EpochReclamation.GracePeriod | base/containers/lock_free_ordered_map.h:744-765 | for every freed node there is the collector's step that read its retirement epoch, the node already swept; every guard open at that step has closed |
| EpochReclamation.SweepsEnd | base/containers/lock_free_ordered_map.h:744-750 | its sweeps over, a collection goes on to its stamps; until then it sweeps the nodes it is said to and no other |
| EpochReclamation.UndisturbedAdvance | base/containers/lock_free_ordered_map.h:96-106 | an undisturbed advance ends within the number of slots and four accesses, and moves the epoch by one if and only if no slot announces an older one |
| EpochReclamation.UndisturbedCollection | base/containers/lock_free_ordered_map.h:744-765 | an undisturbed collection stamps exactly the swept nodes without a stamp, with the epoch it began at, and has freed exactly those whose stamp is two or more behind the epoch it ends with |
| EpochReclamation.CollectionEnds | base/containers/lock_free_ordered_map.h:744-765 | once it has swept it ends, within two accesses a node, one a slot and eight |
| EpochReclamation.SlotAnnounces | base/containers/lock_free_ordered_map.h:85-94 | a slot that announces an epoch belongs to an open guard or one being opened or closed |
| EpochReclamation.SweptIsFreed | base/containers/lock_free_ordered_map.h:744-765 | a node swept by the end of one undisturbed collection with no guard open is freed by the end of the next |
| EpochReclamation.UndisturbedGuard | base/containers/lock_free_ordered_map.h:85-94 | a guard opened undisturbed announces the current epoch after three accesses; closed, it announces none |
| OrderList.Access | base/containers/lock_free_ordered_map.h:521-562 | the accesses of the append, the order sweep and the snapshot |
| OrderList.AppendedOrdered | base/containers/lock_free_ordered_map.h:528-561 | an element without successor is the last, and appending there keeps the order |
| OrderList.RedirectedOrdered | base/containers/lock_free_ordered_map.h:714-742 | unlinking a deleted element that is not the last keeps the order |
| OrderList.StepKeepsInv | base/containers/lock_free_ordered_map.h:521-562 | every access of every inserter, collector and snapshot keeps the list and the ownership of elements |
| OrderList.AppendedOnce | base/containers/lock_free_ordered_map.h:554-561 | an insert about to return true owns exactly one element |
| OrderList.UndisturbedAppend | base/containers/lock_free_ordered_map.h:521-562 | an undisturbed append ends within four accesses an element and five, having added one element at the end, with the call's own key and mark, linked from the former last, and the tail at it; nothing else changes |
| OrderList.StalledAppend | base/containers/lock_free_ordered_map.h:529-541 | while the first append has set the head but not yet the tail, no other append ends, however long it runs: appending is not lock-free there |
| OrderList.StallIsReached | base/containers/lock_free_ordered_map.h:529-541 | a run that gets there |
| OrderList.LastReachable | base/containers/lock_free_ordered_map.h:525-562 | exactly the last element has no successor, and the tail leads to it once set |
| OrderList.TailAdvances | base/containers/lock_free_ordered_map.h:543-560 | over any run the tail never goes back, whoever helps it on, and the list never gets shorter |
| OrderList.QuiescentSnapshot | base/containers/lock_free_ordered_map.h:624-634 | over any run of a snapshot during which the memory stands still: what it took is exactly the live keys in append order |
| OrderList.ConcurrentSnapshot | base/containers/lock_free_ordered_map.h:624-634 | over any run of a snapshot, disturbed or not: it is in order, misses no element present when it begins and live when it ends, and has none that was not live at some moment in between |
| OrderList.WalkGoesOn | base/containers/lock_free_ordered_map.h:624-634 | each access of a snapshot comes nearer its end, within two accesses an element, whatever others do meanwhile |
| OrderList.SweepCleans | base/containers/lock_free_ordered_map.h:714-742 | over any run of the order sweep that nobody disturbs: it ends within three accesses an element; at its end no deleted element but the last is linked, and none was marked |
| SpinningMutex.Step | base/threading/spinning_mutex.cc:49-86 | the accesses and kernel calls of Try, the spin loop, LockSlow and Release |
| SpinningMutex.MutualExclusion | base/threading/spinning_mutex.h:69-82 | one holder at most, and the word is nonzero exactly while there is one |
| SpinningMutex.SleeperAccounted | base/threading/spinning_mutex.cc:49-86 | while a thread sleeps the word is contended, or a wake is owed, or a thread is about to mark it contended |
| SpinningMutex.SpinEnds | base/threading/spinning_mutex.cc:49-64 | an acquire that keeps failing blocks after nine attempts |
| SpinningMutex.TakesFree | base/threading/spinning_mutex.h:69-76 | on an unlocked word a Try, or an exchange of the slow path, that nobody disturbs and that does not fail spuriously takes the lock |
| SpinningMutex.TryFails | base/threading/spinning_mutex.h:69-75 | on a held mutex a Try answers after one read and changes nothing, and an Acquire goes on |
| SpinningMutex.Blocks | base/threading/spinning_mutex.cc:82-86 | the slow path on a locked word marks it contended and sleeps |
| SpinningMutex.HandsOver | base/threading/spinning_mutex.h:77-82 | releasing a contended lock unlocks it and wakes exactly one sleeper |
| SpinningMutex.LetsGo | base/threading/spinning_mutex.h:77-82 | releasing an uncontended one unlocks it and wakes nobody |
| ConditionVariable.Step | base/threading/condition_variable.h:23-94 | the accesses and kernel calls of Wait, NotifyOne and NotifyAll |
| ConditionVariable.WaitReturnsReady | base/threading/condition_variable.h:23-34 | Wait returns with the lock held and the predicate true |
| ConditionVariable.NoMissedChange | base/threading/condition_variable.h:75-94 | after NotifyAll every sleeper evaluated the predicate after every change made before the advance |
| ConditionVariable.WakesWhenSomeSleep | base/threading/condition_variable.h:81-87 | a notifier makes the wake call exactly when some thread is registered as a waiter |
| ConditionVariable.OneWoken | base/threading/condition_variable.h:70-87 | a NotifyOne during which some thread sleeps throughout ends exactly one other sleep |
| ConditionVariable.AllWoken | base/threading/condition_variable.h:73-76 | no thread sleeps throughout a NotifyAll |
| ConditionVariable.NotifyWakes | base/threading/condition_variable.h:70-87 | a NotifyOne that nobody disturbs wakes exactly one sleeper when there is one, a NotifyAll every one, and nothing but the sequence changes otherwise |
| ConditionVariable.NotifiesNobody | base/threading/condition_variable.h:81-87 | without registered waiters it makes no wake call |
| ConditionVariable.ReadyReturns | base/threading/condition_variable.h:23-34 | a Wait that finds the predicate true returns and changes nothing; a waiter that was woken returns when the predicate holds and the lock is free, holding it |
| ConditionVariable.UnreadySleeps | base/threading/condition_variable.h:23-34 | a Wait that finds it false, undisturbed, registers, lets the lock go and sleeps on the current sequence |
| ConditionVariable.StepCount | base/threading/condition_variable.h:90-94 | the waiter count is the number of threads between registration and its undoing |
| MpscQueue.Produce | base/containers/mpsc_queue.h:100-117 | the exchange and the later link of an enqueue |
| MpscQueue.ConsumerStep | base/containers/mpsc_queue.h:119-157 | the accesses of dequeue, removeFront and peek |
| MpscQueue.TakenInOrder | base/containers/mpsc_queue.h:119-157 | what was taken is a prefix of the head-exchange order, nothing lost or repeated |
| MpscQueue.OrderFixed | base/containers/mpsc_queue.h:100-104 | that order and what was taken only grow |
| MpscQueue.FailsOnlyWhenDue | base/containers/mpsc_queue.h:119-123 | a failed dequeue met an empty queue or an oldest enqueue not linked yet |
| MpscQueue.EnqueueStores | base/containers/mpsc_queue.h:100-117 | the node an enqueue puts in order holds the value it was given |
| MpscQueue.EnqueueCompletes | base/containers/mpsc_queue.h:100-117 | one access puts the value last in order, the next links it from the node before: no enqueue waits for another |
| MpscQueue.ConsumeTakes | base/containers/mpsc_queue.h:119-157 | a consumer's call that finds a linked node succeeds; dequeue and removeFront take exactly the oldest value and free the former sentinel, peek and a failure take nothing |
| MpscQueue.ConsumeAdvances | base/containers/mpsc_queue.h:119-157 | within four accesses, whatever the producers do |
| MpscQueue.NoUseAfterFree | base/containers/mpsc_queue.h:100-134 | no producer links through, and the consumer reads, no freed node |
| BucketAllocator.ClassFits | base/allocator/eq_alloc/bucket_allocator.h:44-47 | the class chosen is the smallest that holds the size |
| BucketAllocator.BucketAllocator.AllocateSlowLocked | base/allocator/eq_alloc/bucket_allocator.cc:20-58 | a new slab's first slot, with memory changed only by the zero byte at each system page of the new page, or null with nothing changed when there is no page |
| BucketAllocator.BucketAllocator.Allocate | base/allocator/eq_alloc/bucket_allocator.cc:60-88 | one more live block of at least the size, the other blocks with every word as before, null exactly when neither slab nor page has room |
| BucketAllocator.BucketAllocator.Free | base/allocator/eq_alloc/bucket_allocator.cc:90-112 | exactly that block is no longer live, only its first word changes, and the other live blocks keep every word |
| BucketAllocator.BucketAllocator.MoveAndFree | base/allocator/eq_alloc/bucket_allocator.cc:129-131 | from any heap with both blocks live the contents move and the old block is freed; other live blocks keep every word |
| BucketAllocator.BucketAllocator.ReAllocate | base/allocator/eq_alloc/bucket_allocator.cc:114-132 | uninterrupted: a block large enough stays, otherwise another of the smallest class that fits takes its place with its contents; null exactly when neither slab nor page has room, and then nothing changes; size zero frees the block, and no block at all is an allocation; other live blocks keep every word |
| BucketAllocator.LiveApart | base/allocator/eq_alloc/bucket_allocator.cc:70-82 | two live blocks never overlap |
| BucketAllocator.MaskFindsHeader | base/allocator/eq_alloc/bucket_allocator.h:75-78 | masking any address of a live block gives its slab, on whose slot grid the block lies |
| BucketAllocator.SlabBalance | base/allocator/eq_alloc/bucket_allocator.cc:72-82 | the bump cursor counts the live and the free slots, and the free list holds no slot twice |
| BucketAllocator.NoRoomIsFull | base/allocator/eq_alloc/bucket_allocator.cc:33-42 | a slab without room is full: every block of its size that its page has space for is live |
| UnorderedMap.UnorderedMap.FindSlot | base/containers/unordered_map.h:160-174 | found exactly when the map has the key, at a slot holding its value |
| UnorderedMap.UnorderedMap.GrowAndRehash | base/containers/unordered_map.h:110-140 | the larger table holds the same map and no tombstone |
| UnorderedMap.UnorderedMap.FindOrPrepareInsert | base/containers/unordered_map.h:179-198 | the key's slot, or for an absent key a free slot no probe for it passes an empty one to reach, with room for one more |
| UnorderedMap.UnorderedMap.Insert | base/containers/unordered_map.h:357-366 | the map gains the entry exactly when the key was absent and is otherwise unchanged; the table moves exactly when no capacity remains |
| UnorderedMap.UnorderedMap.InsertAll | base/containers/unordered_map.h:426-433 | as many inserts as capacity remains never move the table, and the first entry of a key wins |
| UnorderedMap.UnorderedMap.FromEntries | base/containers/unordered_map.h:212-215 | the map of an initializer list, in the table reserved for it |
| UnorderedMap.FirstWinsIs | base/containers/unordered_map.h:210-215 | a key has the value it had before, or else that of its first entry |
| UnorderedMap.UnorderedMap.Subscript | base/containers/unordered_map.h:297-306 | assigning through the subscript is updating the map |
| UnorderedMap.UnorderedMap.Find | base/containers/unordered_map.h:308-313 | the value the map has for the key, or none |
| UnorderedMap.UnorderedMap.Erase | base/containers/unordered_map.h:343-354 | the map loses exactly that key, says whether it had it, and no capacity comes back |
| UnorderedMap.UnorderedMap.Clear | base/containers/unordered_map.h:398-406 | the map is empty; the table is consistent again if and only if it held no tombstone, since erased slots outlive their counter |
| UnorderedMap.UnorderedMap.Reserve | base/containers/unordered_map.h:415-424 | the same map with three quarters of its slots for the count, in a fresh table without tombstones exactly when the old one was too small |
| UnorderedMap.ReserveTarget | base/containers/unordered_map.h:418-422 | the smallest power of two, at least 16, whose three quarters exceed the count, so that 12 elements are given 32 slots although 16 hold them |
| UnorderedMap.ReserveIgnoresTombstones | base/containers/unordered_map.h:412-424 | twelve inserts and twelve erasures, after which reserving 11 keeps the table and the next insert moves it |
| UnorderedMap.Stored | base/containers/unordered_map.h:183-197 | storing at a tombstone or at the probe's end keeps every key reachable and unique |
| UnorderedMap.ProbeMisses | base/containers/unordered_map.h:160-174 | an empty slot on the probe, or a full round, proves the key absent |
| Sha256.PaddedShape | base/hashing/sha256.cc:133-145 | the padded message is a whole number of blocks: the message, a one bit, the fewest zeros that make it so, and the length in bits, most significant byte first (section 5.1.1 of FIPS 180-4) |
| Sha256.PaddingDiffers | base/hashing/sha256.cc:133-145 | no two messages are padded alike |
| Sha256.BlockWordOrder | base/hashing/sha256.cc:71-78 | a word is read from a block most significant byte first |
| Sha256.WordBytesOrder | base/hashing/sha256.cc:147-153 | and written to the digest so |
| Sha256.ConstantsAreCubeRoots | base/hashing/sha256.cc:13-24 | each round constant is the first 32 bits of the fraction of the cube root of a prime, as section 4.2.2 of FIPS 180-4 defines it |
| Sha256.InitialAreSquareRoots | base/hashing/sha256.cc:59-67 | each initial word is that of a square root (section 5.3.3) |
| Sha256.RotatesOnceMore | base/hashing/sha256.cc:26-28 | a rotation by one more place is another rotation by one, which halves the word and puts the remainder on top |
| Sha256.Chooses | base/hashing/sha256.cc:30-32 | each bit is taken from the second word where the first has a one, and from the third elsewhere |
| Sha256.Majority | base/hashing/sha256.cc:34-36 | a one where at least two of the three have one |
| Sha256.Sha256Ctx.Transform | base/hashing/sha256.cc:71-105 | one compression of section 6.2.2 of FIPS 180-4 |
| Sha256.Sha256Ctx.Update | base/hashing/sha256.cc:107-131 | the context stands for the message so far: the fold of its whole blocks and its tail |
| Sha256.Sha256Ctx.Finalize | base/hashing/sha256.cc:133-154 | the digest of the padded message's block fold |
| Sha256.HashPieces | base/hashing/sha256.cc:161-165 | any split of a message into updates gives the digest of the whole |
| StringSearch.SkipIsSafe | base/strings/string_search.h:58-69 | no match starts within the skip |
| StringSearch.LastCharSkip | base/strings/string_search.h:61-67 | the skip is the distance to the last character's previous occurrence |
| StringSearch.StringSearch | base/strings/string_search.h:16-79 | the first occurrence at or after the start, or not found when there is none, overflowing positions included |
| StringSearch.FirstIsUnique | base/strings/string_search.h:16-79 | the answer is determined |
| IntegerText.FormatInteger | base/strings/format.cc:193-274 | sign, prefix and the magnitude's numeral without leading zeros |
| IntegerText.FormatSigned | base/strings/format.cc:348-355 | the same for a signed value, the minimum included |
| IntegerText.CutoffExact | base/strings/number_parse.cc:72-90 | the cutoff test is exactly whether the next value passes the limit |
| IntegerText.AccumulateDigits | base/strings/number_parse.cc:70-94 | the numeral of the whole run, clamped to the limit |
| IntegerText.ParseInteger | base/strings/number_parse.cc:241-266 | what the grammar reads, with its end, or failure with the output left alone; the value and the accepted texts are IntegerGrammar's |
| IntegerGrammar.DigitDenotes | base/strings/number_parse.cc:25-36 | a character has a value in a radix if and only if it is a digit or letter of either case below the radix |
| IntegerGrammar.ClampIsNearest | base/strings/number_parse.cc:251-264 | clamping gives the 64-bit value nearest the mathematical one |
| IntegerGrammar.ReadsInteger | base/strings/number_parse.cc:56-94 | any space, any sign or none, a hexadecimal prefix where the radix allows it, and a run of digits of the radix asked for or shown by the text: read as the 64-bit value nearest theirs, ending where the run ends |
| IntegerGrammar.IntegerOfText | base/strings/number_parse.cc:241-266 | every text in which a number is found is put together from such parts |
| IntegerGrammar.Accepted | base/strings/number_parse.cc:241-266 | so a number is found in a text if and only if it is |
| IntegerText.RoundTrip | base/strings/format.cc:193-274 | every 64-bit integer in decimal, prefixed hexadecimal or prefixed octal parses back by detection |
| IntegerText.RoundTripRadix | base/strings/number_parse.cc:56-66 | and in binary, octal, decimal or hexadecimal when the radix is given |

## Left out

- FloatParse.ParseFloat: the counters are unbounded, so texts long enough to overflow an `int` are not modelled; nor is a null text or a null `end`.
- DoubleAssembly.AssembledCorrect: a sticky mantissa of fewer than 54 bits is left out; the conversion never passes one, its quotients having at least 63 (`DecimalScaling.QuotientLength`).
- FloatFormat.FormatFloatTo: precisions near the limit of `int` are not modelled; the leading position is returned as a ghost value.
- EpochReclamation.GracePeriod: says when guards close, not that a stamped node is unreachable from every root; the chain theorems are proved without freeing.
- EpochReclamation.StepKeepsInv: the number of slots is unbounded and the epoch does not overflow; which nodes the sweeps fully unlink is a free choice.
- ConditionVariable.NoMissedChange: the sequence is unbounded, so its wrap at 2^32 is not modelled.
- BucketAllocator.BucketAllocator.Free: only null and live blocks are freed, and sizes are at most 1024, the largest class; the lock is not modelled, each operation under it is one step.
- BucketAllocator.BucketAllocator.ReAllocate: stated of a call that no other thread interrupts; for the others' steps between its allocation and its copy there are the contracts of Allocate, Free and Write, which keep every word of both blocks, and `MoveAndFree`. The copy is one step.
- UnorderedMap.UnorderedMap.Clear: what later calls do on a table whose tombstones it left uncounted.
- The scaling shift's double product is the exact product with the constant's decimal value, truncated.
- Weak memory orders and compiler fences: every step system is sequentially consistent.
- The three protocols of the lock-free map are not composed into one state; iterators, the staging stack, automatic collection and the destructor are not modelled.
- Timed waits of the condition variable, the Windows lock and `Reinit`.
- `UnorderedMap`: copy, move and iteration.
- `FormatInteger` with width, fill or zero padding, and `ParseUnsigned`.
- `StringSearchNotOf` and `StringSearchLastNotOf`; `size_approx` and iteration of the queue.
- The rotation amounts of SHA-256's four sigma functions stand as the standard gives them; no known digest is evaluated.
- Page table, heap and page allocators.
- Files, processes, time, logging, containers and hashes with only simple properties.
