# Verified model of the ClangAsmTest1 algorithms

The repository is a collection of experiments in C++. This project models the ones that carry an
algorithm worth proving, in the form the source gives them, and proves what they are for:

| file | what it models |
|---|---|
| `Roots`, `DigitRoots`, `TableRoots` | the integer square roots: chord plus Heron, odd-number loops, digit by digit, table-seeded |
| `BitReader`, `Lzss`, `LzssEncoder` | the LZSS decoder, which drops the ring dictionary and reads back from its own output; what a stream means, and the round trip through an encoder |
| `TokenText`, `Programs`, `TokenRefinement`, `TokenLaws`, `TokenPrinting`, `Interpreter` | the stack-language interpreter in its stack-limit build, a semantics on trees, the author's rewrite rules, and what is printed |
| `SpinQueue`, `Barrier` | the counter lock and the four-process barrier, as transition systems over all interleavings |
| `Division` | 64-bit signed division on a 64-by-32-bit DIV |
| `FullPeriod`, `CnCRng` | the full-period theorem for affine generators, the rejection sampler and the carry-chain generator |
| `MinSquare` | the square of least sum in a matrix, three ways |
| `Cpu8086` | segmented memory, the stack, CMP and the repeated string scan of the 8086 emulator |
| `Arith` | fixed-width arithmetic, powers of two and the types the other files share |

Machine integers are mathematical integers; every place where the source wraps, truncates or shifts is
written out with `U32`, `U64`, `S32`, `S64`, `% B16` or a power of two. Where the source has no defined result
(reading before a buffer, division by zero) the model has a precondition, shown to be exact for the decoder.

## Results that differ from what the source suggests

* `fast_sqrt` is right for every 32-bit input except one: 0xFFFFFFFF gives 0 (`Roots.FastSqrt`).
* `isqrt2` is right exactly up to 0xFFFF0000, above which its 16-bit result is 0 (`DigitRoots.Isqrt2`).
* `old_isqrt`, without the guard of `old_isqrt3`, is wrong exactly at 0 (`DigitRoots.OldIsqrt`).
* `SpinQueue` excludes, but one arrival between an unlock and the hand-off load stops it for ever
  (`SpinQueue.LostExactlyByIntrusion`, `SpinQueue.LostForEver`), and it hands over last come, first served.
* The barrier's waits are safe, but a process that shuts down before another has polled strands all of
  them (`Barrier.StrandedForEver`), and so does one failed process creation (`Barrier.FailedSpawnHangs`).
* `CnCRng4` has period exactly 2^192 and all seeds lie on that one cycle (`CnCRng.PeriodIsExact`,
  `CnCRng.SeedsShareOneCycle`).
* `rand_int_range` is fair for distances up to 32767 (`CnCRng.SamplerIsFair`); above that it takes the first draw
  and never reaches the value 32768 past the lower bound (`CnCRng.EveryValueOffered`).
* The square-sum routines need only the true square sums to fit 64 bits; the prefix sums may wrap. The first
  routine does not reject k = 0; exactly there it writes past its first row (`MinSquare.SlidingSums`).
* The source lists `><`, `+-` and `~~` as no-operations; they fail on a stack that is too shallow
  (`TokenLaws.NoOperations`). It lists `>-` both as a no-operation and as equal to `-`; the second is right
  (`TokenLaws.GroupDropIsNoNoOperation`).
* `scas_impl` moves upwards when the direction flag is set; the model follows the code.

## Model

| member | source | states |
|---|---|---|
| Roots.HeronLower | ClangAsmTest1.cpp:2616-2618 | a refinement step on integers never lands below the floor root, from any positive start |
| Roots.HeronUpper | ClangAsmTest1.cpp:2616-2618 | the error bound of a refinement: overshoot at most e when (y-s-1)^2 <= 2ey |
| Roots.ChordBound | ClangAsmTest1.cpp:2610-2615 | the interpolated estimate never exceeds the root and misses it by at most a twelfth of the power of two plus one |
| Roots.TwoStepsSuffice | ClangAsmTest1.cpp:2614-2622 | from the estimate, the first refinement is at least the root and the second within one of it |
| Roots.FirstStepFits | ClangAsmTest1.cpp:2614-2618 | the first refinement leaves 16 bits at 2^32-1 and nowhere else |
| Roots.StepDown | ClangAsmTest1.cpp:2618 | the wrapped subtraction and logical shift leave the true value plus 2^31 |
| Roots.SquareForgetsTopBit | ClangAsmTest1.cpp:2620 | squaring modulo 2^32 removes that excess |
| Roots.FastSqrt | ClangAsmTest1.cpp:2608-2625 | the floor square root for a 32-bit input if and only if the input is not 0xFFFFFFFF |
| Roots.ChordRoot | ClangAsmTest1.cpp:2610-2622 | the same for the body shared with fast_sqrt3 |
| DigitRoots.CountOdds | ClangAsmTest1.cpp:2517-2523 | the subtraction loop ends one past the floor root, with no 32-bit overflow on the way |
| DigitRoots.OldIsqrt | ClangAsmTest1.cpp:2516-2528 | the unguarded version: right for every non-negative input if and only if it is not 0 |
| DigitRoots.OldIsqrt3 | ClangAsmTest1.cpp:2541-2554 | the floor root for positive inputs, 0 otherwise |
| DigitRoots.FastSqrt3 | ClangAsmTest1.cpp:2679-2709 | the floor root for every positive int32, across the switch at 120 |
| DigitRoots.DigitStep | ClangAsmTest1.cpp:2568-2576 | one digit step keeps p^2 <= s < (p+c)^2 with error s-p^2, for either comparison result |
| DigitRoots.RoundToNearest | ClangAsmTest1.cpp:2578-2581 | adding one exactly when the error exceeds the root is rounding to nearest |
| DigitRoots.NearestUnique | ClangAsmTest1.cpp:2556-2605 | there is one nearest root, so isqrt and isqrt2 agree wherever both are right |
| DigitRoots.Isqrt | ClangAsmTest1.cpp:2556-2582 | the root rounded to nearest for every positive int32, 0 otherwise |
| DigitRoots.Isqrt2 | ClangAsmTest1.cpp:2584-2605 | the root rounded to nearest if and only if the input is at most 0xFFFF0000 |
| TableRoots.TableCorrect | ClangAsmTest1.cpp:2730-2750 | entry i of the table is floor(16 sqrt(i)) |
| TableRoots.EntryBrackets | ClangAsmTest1.cpp:2816-2819 | the scaled entry brackets the root of any input of that scale |
| TableRoots.SeedSuffices | ClangAsmTest1.cpp:2816-2834 | the number of refinements each shift count gets always suffices, in 16 bits, up to the largest input |
| TableRoots.NewFastSqrt | ClangAsmTest1.cpp:2814-2835 | the floor square root for every 32-bit input |
| TableRoots.NewFastSqrt2 | ClangAsmTest1.cpp:2837-2855 | the same for the nested-if form |
| TableRoots.RotationSeeds | ClangAsmTest1.cpp:2861-2863 | the 16-bit truncated rotation is the scaled entry, for shifts in both directions |
| TableRoots.NewFastSqrt3 | ClangAsmTest1.cpp:2857-2875 | the same for the rotating form, whose tests on the value are the tests on the shift count |
| BitReader.OrIsSum | ClangAsmTest1.cpp:11163 | or-ing a byte below the bits held is appending it |
| BitReader.BitsSplit | ClangAsmTest1.cpp:11167-11172 | reading m + n bits is reading m and then n |
| BitReader.BitsOfByte | ClangAsmTest1.cpp:11163 | bits come most significant first, and are zero past the end |
| BitReader.Reader.Refill | ClangAsmTest1.cpp:11161-11166 | the buffer then holds at least the requested bits of the source from the same position, in 32 bits |
| BitReader.Reader.GetBits | ClangAsmTest1.cpp:11167-11172 | delivers exactly the next bits of the source and advances by them |
| Lzss.RingDecode | ClangAsmTest1.cpp:11174-11191 | the reference decoder with a ring whose head starts at 1 ends on every finite source and only appends to its output; which bytes, `LzssEncoder.DecodesEncoding` says |
| Lzss.EmitMirrors | ClangAsmTest1.cpp:11185-11189 | the ring is always the last 8192 output bytes, across the wrap |
| Lzss.FastIndexIsLatest | ClangAsmTest1.cpp:11186-11187 | the position computed without a ring is the latest output byte of that ring slot |
| Lzss.MatchByte | ClangAsmTest1.cpp:11186-11188 | one copied byte, overlapping matches included: in bounds, and the byte the ring would give |
| Lzss.CopyFailsExactly | ClangAsmTest1.cpp:11185-11189 | the ring copy reads an unwritten slot exactly when some read of the fast copy would lie before the buffer |
| Lzss.ReadsBeforeExactly | ClangAsmTest1.cpp:11185-11189 | that is exactly when the distance of the match exceeds the bytes written |
| Lzss.AcceptsExactly | ClangAsmTest1.cpp:11174-11191 | the reference decoder accepts exactly the streams on which the fast one never reads before its buffer |
| Lzss.UnlzssFast | ClangAsmTest1.cpp:11149-11194 | the bytes of the reference decoder, for every stream whose matches point at written output; nothing else of the buffer changes; it terminates |
| Lzss.CopyBack | ClangAsmTest1.cpp:11185-11189 | the in-place copy loop of one match is the ring copy |
| LzssEncoder.DecodesEncoding | ClangAsmTest1.cpp:11174-11191 | decoding the bits of any list of literals and matches (13-bit offset, 4 bits for the length less 3) gives its LZ77 expansion: each match appends its 3 to 18 bytes, each the byte at one fixed distance in an 8192-byte window, or fails where that is further back than the output |
| LzssEncoder.CopyIsRepeat | ClangAsmTest1.cpp:11184-11189 | the ring copy of one match is that copy from a fixed distance, overlap included |
| LzssEncoder.ItemsOf | ClangAsmTest1.cpp:11174-11184 | every source, truncated ones included, holds such a list from every position |
| LzssEncoder.FastDecodes | ClangAsmTest1.cpp:11149-11194 | so for every source: the fast decoder's precondition is that its list expands, and its output is the expansion |
| LzssEncoder.SlotOfDistance | ClangAsmTest1.cpp:11186-11187 | every distance from 1 to 8192 is that of the offset the encoder derives from it |
| LzssEncoder.PackedBits | ClangAsmTest1.cpp:11161-11172 | bits packed into bytes, most significant first and filled up with zeros, are the bits read |
| LzssEncoder.RoundTrip | ClangAsmTest1.cpp:11149-11194 | the packed encoding of any list decodes to its expansion |
| LzssEncoder.EveryOutputHasASource | ClangAsmTest1.cpp:11176-11178 | any data is delivered by some source |
| Programs.Parse | ClangAsmTest1.cpp:10518-10533 | every text the early pass accepts is a printed program |
| Programs.PrintBalanced | ClangAsmTest1.cpp:10518-10533 | every printed program passes the early pass |
| Programs.CloseSkips | ClangAsmTest1.cpp:10546-10573 | the search for the closing parenthesis passes over complete programs |
| TokenRefinement.ExecImplements | ClangAsmTest1.cpp:10544-10743 | the text interpreter is the tree semantics for every stack of quotations, program and depth, errors and irreducible stops included |
| TokenRefinement.UngroupImplements | ClangAsmTest1.cpp:10625-10667 | the same for `<`, with the nested run's four outcomes |
| TokenRefinement.RunsAreRegular | ClangAsmTest1.cpp:10544-10743 | every run on quotations keeps one balanced quotation a token at every step, nested activations included, and never takes the stray-`)`, unclosed-`(` or not-parenthesised arms |
| TokenLaws.TextRunsAreRegular | ClangAsmTest1.cpp:10544-10743 | the same on text, from every stack of quotations; no nested text fails the early pass |
| TokenLaws.ProgramIsRegular | ClangAsmTest1.cpp:10870-10933 | the same for whole programs from the empty list, those the early pass rejects excepted |
| TokenLaws.StackShape | ClangAsmTest1.cpp:10544-10743 | a normal end leaves only balanced quotations; an irreducible stop leaves quotations and then text that starts with no operator |
| TokenLaws.StopsAtForeign | ClangAsmTest1.cpp:10716-10717 | a run stops irreducibly only at a character that is no operator |
| TokenLaws.MoreFuel | ClangAsmTest1.cpp:10507-10511 | a run that does not hit the depth limit has the same outcome under a higher one |
| TokenLaws.Sequencing | ClangAsmTest1.cpp:10544-10743 | running p then q is running q where p ended; if p stops, q joins the left-over text |
| TokenLaws.UngroupInlines | ClangAsmTest1.cpp:10625-10667 | `(w)<q` and `wq` have the same outcome, both directions of the depth limit, irreducible stops included |
| TokenLaws.TextUngroupInlines | ClangAsmTest1.cpp:10625-10667 | the same on text: same printed answer or failure together, from every stack of quotations |
| TokenLaws.TextSequencing | ClangAsmTest1.cpp:10544-10743 | a text runs on from the stack its prefix leaves, so the laws hold after every prefix that runs to its end |
| TokenLaws.ProgramUngroupInlines | ClangAsmTest1.cpp:10870-10933 | for whole programs under the depth limit of 1000: replacing `(w)<q` by `wq` after a prefix changes no answer |
| TokenLaws.DroppingRules | ClangAsmTest1.cpp:11003-11007 | the five rules that drop operations, on every stack and continuation, errors included |
| TokenLaws.CopyRules | ClangAsmTest1.cpp:11008-11010 | the three rules that regroup a copy, below the depth limit |
| TokenLaws.TextRules | ClangAsmTest1.cpp:11003-11010 | all eight rules for the interpreter on text |
| TokenLaws.NoOperations | ClangAsmTest1.cpp:10999 | the exact outcome of every pattern listed as a no-operation, on every stack and depth |
| TokenLaws.GroupDropIsNoNoOperation | ClangAsmTest1.cpp:10999 | the listed `>-` is none: alone it changes the outcome on every stack |
| TokenText.AnswerLaysTokens | ClangAsmTest1.cpp:10885-10901 | the printed text holds every token of the list in its place, after a normal end and after an irreducible stop |
| TokenPrinting.QuotationsPrintThemselves | ClangAsmTest1.cpp:10870-10933 | a text of balanced quotations leaves them on the list and prints itself |
| TokenPrinting.NormalAnswerRebuilds | ClangAsmTest1.cpp:10870-10933 | running what a normal run printed rebuilds the list it ended with |
| TokenPrinting.IrreducibleAnswer | ClangAsmTest1.cpp:10870-10933 | after an irreducible stop the printed text is the quotations below the left-over, in order, and then the left-over; running it prints the same again |
| TokenPrinting.QuotationIsPushed | ClangAsmTest1.cpp:10546-10577 | a balanced text in parentheses goes on the list as one token, and the rest runs on |
| TokenPrinting.OperatorsOnText | ClangAsmTest1.cpp:10583-10715 | what each operator but `<` does to the top tokens, on every list of quotations and every continuation |
| TokenPrinting.TextEnds | ClangAsmTest1.cpp:10583-10742 | the end of the text, an operator with too few tokens, and a character that is no operator |
| TokenPrinting.NestingDepth | ClangAsmTest1.cpp:10503-10511 | n nested activations run to their end if and only if n is below the number of levels given |
| TokenPrinting.DepthLimit | ClangAsmTest1.cpp:10503-10511 | so for the whole program the limit is 999 nested activations |
| Interpreter.ShiftOut | ClangAsmTest1.cpp:10640-10645 | the in-place shift leaves the text between the parentheses |
| Interpreter.ShiftIn | ClangAsmTest1.cpp:10672-10680 | the in-place shift leaves the text in parentheses |
| Interpreter.CopyTail | ClangAsmTest1.cpp:10696-10703 | the merged buffer is the left text without its last and the right without its first character |
| Interpreter.CheckBalance | ClangAsmTest1.cpp:10518-10533 | the early pass accepts exactly the balanced texts |
| Interpreter.FindClose | ClangAsmTest1.cpp:10546-10573 | finds the matching parenthesis, or the end when there is none |
| Interpreter.TokenList.RunTop | ClangAsmTest1.cpp:10626-10648 | `<` takes the top token off and runs its inside one level deeper |
| Interpreter.TokenList.TokenizeInner | ClangAsmTest1.cpp:10505-10743 | the code and the token list are those of the specification, for every source and depth; it terminates |
| Interpreter.TokenizeWhatever | ClangAsmTest1.cpp:10870-10933 | no token exactly on failure and on an empty list; otherwise all tokens of the final list, each at the end of those before it, and nothing else |
| SpinQueue.StepKeepsInvariant | ClangAsmTest1.cpp:7605-7615 | every atomic step of every thread keeps the three-mode invariant, and leaves the working modes exactly at an arrival in the hand-off window |
| SpinQueue.MutualExclusion | ClangAsmTest1.cpp:7605-7615 | in every run at most one holder; while there is one the waiters have the tickets 1..data-1, each once |
| SpinQueue.LostExactlyByIntrusion | ClangAsmTest1.cpp:7605-7615 | waiters without a possible next holder exist exactly after such an arrival |
| SpinQueue.LostForEver | ClangAsmTest1.cpp:7605-7615 | after it nobody ever holds the lock again |
| SpinQueue.IntrusionHappens | ClangAsmTest1.cpp:7605-7615 | a run of three threads that gets there |
| SpinQueue.HandOffGoesToHighestTicket | ClangAsmTest1.cpp:7606-7610 | otherwise exactly one waiter can go on, the one with the highest ticket |
| SpinQueue.Lock.FetchAdd | ClangAsmTest1.cpp:7606 | the first operation of lock is the model's arrival |
| SpinQueue.Lock.Spin | ClangAsmTest1.cpp:7607-7608 | one turn of the waiting loop is the model's load |
| SpinQueue.Lock.Release | ClangAsmTest1.cpp:7612-7615 | unlock is the model's unlock, and the counter does not wrap |
| Barrier.StepKeepsInvariant | ClangAsmTest1.cpp:1561-1608 | every step of every process keeps the barrier invariant, failed process creations included |
| Barrier.IndicesDistinct | ClangAsmTest1.cpp:1561-1563 | in every run at most four processes with distinct indices; only the first gets 0 and creates others |
| Barrier.StartBarrier | ClangAsmTest1.cpp:1606-1608 | nobody leaves the start-up wait, or shuts down, before all four have registered |
| Barrier.EndBarrier | ClangAsmTest1.cpp:1707-1714 | in every run a poll of the shutdown wait ends it if and only if all four have decremented |
| Barrier.StartSucceedsUnlessStranded | ClangAsmTest1.cpp:1606-1608 | a poll of the start-up wait succeeds if and only if all four are registered and nobody has decremented yet |
| Barrier.StrandedForEver | ClangAsmTest1.cpp:1606-1714 | once somebody decrements while another is in the start-up wait, that one never starts and nobody ever finishes |
| Barrier.StrandingHappens | ClangAsmTest1.cpp:1606-1714 | a run that gets there |
| Barrier.FailedSpawnHangs | ClangAsmTest1.cpp:1593-1608 | after one failed process creation nobody ever leaves the start-up wait |
| Barrier.SharedCounter.FetchAdd | ClangAsmTest1.cpp:1562 | the registration is the model's step; index 0 goes to the first process |
| Barrier.SharedCounter.StartPoll | ClangAsmTest1.cpp:1606-1608 | one turn of the start-up wait |
| Barrier.SharedCounter.FetchSub | ClangAsmTest1.cpp:1710 | the decrement is the model's step and does not wrap |
| Barrier.SharedCounter.EndPoll | ClangAsmTest1.cpp:1711-1713 | one turn of the shutdown wait |
| Division.DivideByWord | ClangAsmTest1.cpp:11294-11302 | two DIVs give the full quotient and neither faults |
| Division.Normalise | ClangAsmTest1.cpp:11304-11308 | the shift loop divides both operands by one power of two and leaves a normalised single-word divisor |
| Division.EstimateWithinOne | ClangAsmTest1.cpp:11304-11316 | the normalised estimate is the true quotient or one more |
| Division.ProductFits | ClangAsmTest1.cpp:11380 | the product of divisor and estimate never needs more than 64 bits |
| Division.ProductByWords | ClangAsmTest1.cpp:11321-11329 | the word-by-word test is the comparison of the full product with the dividend |
| Division.DivideByTwoWords | ClangAsmTest1.cpp:11303-11331 | one DIV that does not fault and one correction give the quotient |
| Division.DivideByTwoWordsCompare | ClangAsmTest1.cpp:11367-11380 | the same for the comparing variant |
| Division.Abs | ClangAsmTest1.cpp:11235-11248 | the mask form of the absolute value on two words |
| Division.AllDiv | ClangAsmTest1.cpp:11280-11337 | the truncated signed quotient as a 64-bit value, for every nonzero divisor |
| Division.AllDivCompare | ClangAsmTest1.cpp:11341-11407 | the same |
| Division.TruncatedMeaning | ClangAsmTest1.cpp:11280-11337 | the quotient is the one whose remainder is below the divisor and has the sign of the dividend |
| Division.OnlyOneWraps | ClangAsmTest1.cpp:11333-11336 | the result is the true quotient except for the minimum divided by -1 |
| FullPeriod.FullPeriodTheorem | cnc_rng.h:58-62 | with multiplier 1 modulo 4 and odd increment an orbit modulo 2^k returns after n steps if and only if 2^k divides n |
| FullPeriod.GeometricDivides | cnc_rng.h:58-62 | 2^k divides 1 + a + ... + a^(n-1) if and only if it divides n |
| FullPeriod.ReachesEverything | cnc_rng.h:58-80 | every residue is reached from every start in fewer than 2^k steps |
| CnCRng.WindowReached | cnc_rng.h:58-62 | every value of the 25 seed bits a draw reads comes up within 2^25 draws |
| CnCRng.CnCRng2.RandInt | cnc_rng.h:58-62 | the two shifts keep bits 10 to 24 of the new seed |
| CnCRng.KnownStream | cnc_rng.h:58-80 | the first three seeds and draws of a fresh generator, and what it gives for 0 to 5 |
| CnCRng.SeedRecovered | cnc_rng.h:58-60 | a step of the seed is undone by the inverse constants |
| CnCRng.MaskIsOnes | cnc_rng.h:72 | the shifted mask is one less than a power of two, for either result of a shift by 32 |
| CnCRng.AndIsMasked | cnc_rng.h:72-76 | and-ing a draw with the mask is the remainder by that power |
| CnCRng.MaskIsLeast | cnc_rng.h:72 | for a distance whose low 15 bits are b > 0 the power is the least above b: more than b and at most 2b |
| CnCRng.SamplerIsFair | cnc_rng.h:71-77 | for distances up to 32767 all values are offered by equally many of the 2^15 draws, and more than half of the draws are accepted |
| CnCRng.LongDistancesTakeTheFirst | cnc_rng.h:71-77 | for longer distances the first draw is taken |
| CnCRng.CnCRng2.Sample | cnc_rng.h:72-77 | the rejection loop ends within 2^25 draws with the first acceptable one, for every positive distance |
| CnCRng.CnCRng2.RandIntRange | cnc_rng.h:64-80 | that draw added to the lower bound, between the bounds in either order, for all bounds and for either result a machine gives a shift by 32 |
| CnCRng.EveryValueOffered | cnc_rng.h:71-77 | every value of the interval is offered from every seed if and only if the distance is at most 32767 |
| CnCRng.CnCRng4.constructor | cnc_rng.h:83-87 | a fresh generator has the default words and seed 0 |
| CnCRng.SeedingShiftsTheTable | cnc_rng.h:83-97 | seeding adds the seed to each of the six default words, modulo 2^32; with 0 it restores them |
| CnCRng.LowWordCounts | cnc_rng.h:101-102 | the lowest word counts the calls |
| CnCRng.CnCRng4.RandUint | cnc_rng.h:99-114 | the carry chain maps the number N of the six words to (N+1)(1+2^32+...+2^160) modulo 2^192 |
| CnCRng.CarryChain | cnc_rng.h:101-112 | the six additions with carry telescope to that map |
| CnCRng.StepInvertible | cnc_rng.h:99-114 | the step is a bijection on states, with its inverse given |
| CnCRng.NumberInjective | cnc_rng.h:83-86 | the number determines the words |
| CnCRng.PeriodIsExact | cnc_rng.h:99-114 | two calls of a stream leave the same state if and only if 2^192 divides their distance |
| CnCRng.SeedsShareOneCycle | cnc_rng.h:89-97 | any seeded state is reached from any other, after 0 calls only from the same seed |
| CnCRng.CnCRng4.Initialize | cnc_rng.h:89-97 | the seeded words, and the seed remembered |
| MinSquare.RowPass | ClangAsmTest1.cpp:7080-7088 | the in-place row pass leaves row sums of the input, reading no overwritten cell; it runs over the row exactly for k = 0 |
| MinSquare.ColumnPass | ClangAsmTest1.cpp:7090-7098 | the in-place column pass then leaves the square sums |
| MinSquare.SlidingSums | ClangAsmTest1.cpp:7067-7121 | the first row-major minimum over all squares, on 64-bit words; it runs over the matrix exactly for k = 0 on a non-empty one |
| MinSquare.PrefixStep | ClangAsmTest1.cpp:7131-7140 | the recurrence both prefix tables are filled by |
| MinSquare.BlockFromPrefixes | ClangAsmTest1.cpp:7149-7152 | a block is what four corner prefixes leave |
| MinSquare.UnpaddedPrefixes | ClangAsmTest1.cpp:7124-7170 | the same minimum, though the prefix sums may wrap |
| MinSquare.PaddedPrefixes | ClangAsmTest1.cpp:7172-7219 | the same minimum from the padded table |
| MinSquare.MinimumUnique | ClangAsmTest1.cpp:7067-7219 | there is one such answer, so the three routines agree |
| MinSquare.TrueMinimum | ClangAsmTest1.cpp:7099-7110 | when every true square sum is below the sentinel, the answer is the true minimum at its first position |
| Cpu8086.RealAddr | 8086_cpu.cpp:74-76 | every linear address, and the one after it, lies inside the memory array; which byte it is, `Cpu8086.LinearAddresses` says |
| Cpu8086.LinearAddresses | 8086_cpu.cpp:74-76 | segment 0 starts at 0, consecutive offsets are consecutive bytes with wrap-around at 0xFFFF, and seg:offset is seg+1:offset-16 |
| Cpu8086.WordIsLinear | 8086_cpu.cpp:122-158 | on flat memory a word that does not wrap is its low and then its high byte, both when read and when written |
| Cpu8086.WordThroughAlias | 8086_cpu.cpp:122-158 | a word written at seg:offset is read back at seg+1:offset-16 unless it wraps, and what is read then |
| Cpu8086.EvenWordIsAdjacent | 8086_cpu.cpp:127-134 | the direct access for even offsets is the wrapped access |
| Cpu8086.Machine.WriteWord | 8086_cpu.cpp:122-137 | both bytes at their wrapped offsets, nothing else changed |
| Cpu8086.Machine.ReadWord | 8086_cpu.cpp:139-158 | the word of the two bytes at their wrapped offsets |
| Cpu8086.Machine.Push | 8086_cpu.cpp:567-572 | the new machine is the model's push |
| Cpu8086.Machine.Pop | 8086_cpu.cpp:574-580 | the value and the new machine are the model's pop |
| Cpu8086.PushHolds | 8086_cpu.cpp:567-572 | a push adds one word on top and disturbs none of up to 32767 live ones, wrapping included |
| Cpu8086.StackIsList | 8086_cpu.cpp:567-580 | any run of pushes and pops with at most 32768 live words is a run of an abstract list |
| Cpu8086.RunTouchesOnlyTheStack | 8086_cpu.cpp:567-580 | a run whose greatest depth is m changes no byte of memory but those of the m words below the end of the stack, wrapping included |
| Cpu8086.RunKeepsSegmentData | 8086_cpu.cpp:567-580 | so data in the stack's own segment, beyond the deepest word, is untouched |
| Cpu8086.RunStaysInSegment | 8086_cpu.cpp:567-580 | and no run of any depth changes a byte outside the segment |
| Cpu8086.ConditionsDecide | 8086_cpu.cpp:500-510 | the flags of a comparison decide equality and both orders, as the condition tests read them |
| Cpu8086.SignAndOverflow | 8086_cpu.cpp:500-510 | each flag on its own, from the one r with src + r = dst in the operand width: sign is the top bit of r, overflow says that the operands differ in sign and r in sign from dst; equal operands clear both |
| Cpu8086.Machine.Scas | 8086_cpu.cpp:876-892 | how many elements were looked at, the CX, DI and flags that report it, the way DI moves under the direction flag, and that the zero flag tells whether a match (or mismatch) is among the CX elements |
| Cpu8086.ScanFinds | 8086_cpu.cpp:880-885 | from CX, DI and the zero flag: whether there was a match (or mismatch), and that the last element looked at is the first such |

## Left out

- Windows and process plumbing, injection, file output, timing, menus, JSON, XInput; of the barrier only the counter and the process phases are kept.
- All floating-point code, the float outputs of the generators, and `CnCRng4::rand_int_range`, which only reduces a draw.
- Allocation failure, the `temp` clean-up slots and the source list of the tokenizer, which only keep memory alive; `malloc` and `realloc` succeed.
- The Windows build of the tokenizer, which relies on stack-overflow exceptions instead of the depth limit.
- Token buffers are arrays only inside the operations that shift them; on the token list a token is its text, so sharing of buffers is not modelled.
- `fast_sqrt_prev`, `fast_sqrt2`, `fast_sqrt4`, `old_isqrt2` and `java_sqrt_test`: variants of modelled routines.
- `uint_fast16_t` in `fast_sqrt3`, whose width depends on the platform, is taken to be 32 bits wide.
- In `CnCRng2::rand_int_range` the subtraction of bounds 2^31 or more apart wraps, as two's-complement machines do it.
- Memory ordering: the atomic operations of the lock and the barrier are sequentially consistent steps.
- The auxiliary and parity flags of `cmp_impl`, segment overrides, and the rest of the 8086 instruction set.
- What `unlzss_fast` does with a buffer that is too short, or on a stream that makes it read before the buffer: the source checks neither.
