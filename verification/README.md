# Verified models of the repository's kernels

The repository is a collection of small programs. This project models the
self-contained ones whose correctness is not evident from their text and proves
what each of them is for:

* **Queues** (`SemQueue`, `CondQueue`, `Threads`, `Sums`). Two bounded or batched
  producer/consumer queues as transition systems over any number of threads, every
  semaphore operation, lock, push, pop, notification and release being one step.
  The semaphore queue posts its reader semaphore only once per water mark; the
  condition-variable queue notifies only at size zero or from the water mark on.
  Both rest on a counting invariant that the code does not spell out.
* **Fast algorithms against simple definitions** (`Rotate`, `Reversal`, `Palindrome`,
  `Kmp`, `CoinChange`, `Brackets`, `LargestNumber`, `NextPermutation`, `KthLargest`,
  `FourSum`, `WordBreak`, `CountAndSay`, `Sorting`, `Decimal`).
* **Pointer and graph algorithms** (`Morris`, `CycleDetection`, `WordLadder`).
* **Codecs** (`Tea`, `Packet`, `Bits`, `BitStream`, `Bytes`, `BinaryMessage`,
  `WireForm`, `RangeString`, `Slices`). A block cipher with packet framing, a bit stream with arbitrary
  offsets, a schema-driven wire format whose layout depends on decoded fields, and
  a range notation for lists of integers.
* **Evaluators and matchers** (`Calculator`, `Regex`). Recursive descent against a
  one-pass stack machine on printed expression trees; a backtracking matcher against
  the language a pattern denotes.

Programs that update variables in place are methods with loops, arrays and classes,
proved against specification functions or definitions; the lemmas then say what those
definitions promise. Integers are mathematical except where width is the point
(the cipher, the wire formats, the bit stream, the `size_t` counter of a consumer).

Seven places where the code does less than a reader would expect are kept as they are,
with the exact condition under which it meets the expectation:

* `longestPalindrome3` pads with `#` and drops every `#` from its answer. Both versions
  choose the same substring, and their answers are equal exactly when it contains no `#`
  (`Palindrome.Agreement`; the string `"#"` is the smallest failure, `Palindrome.SingleHashFails`).
* `ladderLength` answers 0 for an empty dictionary even when the two words differ in
  one letter (`WordLadder.EmptyDictionary`).
* The two calculators read several signs in a row differently: to the descent every minus
  negates, to the single pass only the last sign counts, the operator included. For a given
  expression they agree whatever its numbers exactly when, for every number, the product of
  the signs of the operands it lies in comes out the same in both readings
  (`Calculator.AgreementCondition`). A single second sign does harm exactly after a binary
  minus: `1--1` is 2 to one and 0 to the other, `1+-1` is 0 to both (`Calculator.SecondSignDiffers`).
* `LargeInt` scales what it reads from magnitude 2^29 on (`BinaryMessage.LargeRoundTrip`).
* `IPacket >>` asserts on the read position against bounds that are stricter than the
  packet, so a packet that was legally written may stop the reader: one with a byte behind
  a text of 32745 bytes does (`Packet.LastByteStops`). `Packet.Receive` returns the fields
  exactly under the condition `AllPass`.
* `wordBreak` calls the empty string unbreakable and `wordBreak2` does not
  (`WordBreak.OnlyEmptyDiffers`).
* `range_str_to_list` cannot read the negative numbers that `to_range_str` writes
  (`RangeString.RoundTrip`).

## Model

| member | source | states |
|---|---|---|
| SemQueue.Safety | cpp/misc/semqueue.cpp:24-48 | in every reachable state, for any number of producers and consumers: the queue stays within capacity, writer tokens plus admitted producers plus items make up the capacity, reader tokens free or claimed are exactly one per started water mark, no batch is empty or too large, batches in drain order followed by the queue are the pushed sequence and each producer's items keep their order, the mutex excludes |
| SemQueue.StepInv | cpp/misc/semqueue.cpp:24-48 | the invariant behind this is kept by every step of every thread, and no step pops an empty queue |
| SemQueue.CeilDivSucc | cpp/misc/semqueue.cpp:30-31 | the test in `post` fires exactly when one more reader token is due |
| SemQueue.CeilDivBatch | cpp/misc/semqueue.cpp:38 | a batch of min(water mark, size) uses up exactly one reader token |
| SemQueue.StuckOnlyWhenDrained | cpp/misc/semqueue.cpp:60-76 | if nothing can move and a consumer still waits, every producer is finished and the queue is empty: no wake-up is lost |
| SemQueue.RunsAreBounded | cpp/misc/semqueue.cpp:60-76 | the number of steps of any run is bounded by eleven per item, two per producer and four per consumer |
| SemQueue.TotalNeverOvershoots | cpp/misc/semqueue.cpp:60-69 | with one producer of N items and one consumer of N, `total` never passes `count`, so the `!=` loop can only stop at equality |
| SemQueue.MainCompletes | cpp/misc/semqueue.cpp:80-87 | a run of main that can go no further has finished both threads, and the batches are the posted items in order |
| SemQueue.MainBounded | cpp/misc/semqueue.cpp:80-87 | main takes at most 11N + 6 steps, for every capacity and water mark of at least one |
| CondQueue.NoLostWakeUp | cpp/misc/queue.cpp:19-42 | for any number of threads, while a consumer sleeps over a non-empty queue and the mutex is free, at least one other consumer has been woken, and one more per item beyond the water mark |
| CondQueue.LoneSleeper | cpp/misc/queue.cpp:29-42 | a single consumer sleeps only over an empty queue |
| CondQueue.StepInv | cpp/misc/queue.cpp:19-42 | every move, spurious wake-ups included, keeps the invariant |
| CondQueue.Safety | cpp/misc/queue.cpp:19-42 | received, in-hand and queued items are the posted sequence in order; batches are neither empty nor over the water mark; the mutex excludes |
| CondQueue.StuckOnlyWhenDrained | cpp/misc/queue.cpp:53-66 | when only a spurious wake-up is left, all producers are finished and every consumer is finished or sleeps over an empty, fully received queue |
| CondQueue.RunsAreBounded | cpp/misc/queue.cpp:53-66 | the moves of a run are bounded by its items, its threads and its spurious wake-ups |
| CondQueue.MinusIs | cpp/misc/queue.cpp:53-60 | the `size_t` counter: exact while a batch is no larger than what is expected, otherwise just below 2^64 and not zero |
| CondQueue.MainCompletes | cpp/misc/queue.cpp:70-77 | a stuck run of main has ended both threads with everything received in order |
| Morris.IsValidBST | hobbies/leetcode/algorithms/solution_98.cpp:35-67 | terminates on every finite tree, visits every node once in in-order, restores every link, and returns true exactly for binary search trees |
| Morris.Traverse | hobbies/leetcode/algorithms/solution_98.cpp:38-58 | the threading loop records the in-order values and leaves no thread behind |
| Morris.BSTIsIncreasing | hobbies/leetcode/algorithms/solution_98.cpp:4-11 | the recursive definition in the file's header holds exactly when the in-order values strictly increase |
| Morris.ReturnPosition | hobbies/leetcode/algorithms/solution_98.cpp:49-52 | arriving over a thread, the traversal stands at the innermost pending ancestor and the thread to remove is the one from the last node of its left subtree |
| Morris.EnterPosition | hobbies/leetcode/algorithms/solution_98.cpp:53-55 | arriving first, the thread set is the one from the last node of the left subtree to the current node, and the work left decreases |
| Reversal.Reverse | hobbies/leetcode/algorithms/solution_189.cpp:9-13 | mirrors the stretch between the two indices and nothing else |
| Rotate.MirrorThrice | hobbies/leetcode/algorithms/solution_189.cpp:22-24 | the three reversals amount to a rotation |
| Rotate.RotateByReversal | hobbies/leetcode/algorithms/solution_189.cpp:15-25 | rotates right by k mod n |
| Rotate.Gcd | hobbies/leetcode/algorithms/solution_189.cpp:27-36 | the subtractive loop returns the greatest common divisor, as an integer combination of its arguments |
| Rotate.GcdIsGreatest | hobbies/leetcode/algorithms/solution_189.cpp:27-36 | such a number is divisible by every common divisor |
| Rotate.OrbitCloses | hobbies/leetcode/algorithms/solution_189.cpp:46-58 | n / gcd steps of +k mod n lead from a leader back to it |
| Rotate.OrbitInjective | hobbies/leetcode/algorithms/solution_189.cpp:46-58 | before that no position repeats |
| Rotate.OrbitResidue | hobbies/leetcode/algorithms/solution_189.cpp:46-58 | orbits of different leaders are disjoint |
| Rotate.OrbitSurjective | hobbies/leetcode/algorithms/solution_189.cpp:46-58 | the leaders 0 to gcd - 1 reach every position |
| Rotate.RotateByCycles | hobbies/leetcode/algorithms/solution_189.cpp:38-59 | the cycle-leader rotation gives the same array as the triple reversal, for every non-empty array and k >= 0 |
| LargestNumber.BeforeIsStrictWeakOrder | hobbies/leetcode/algorithms/solution_179.cpp:36-38 | x + y > y + x is a strict weak order on digit strings, as std::sort demands |
| LargestNumber.BeforeIsRatio | hobbies/leetcode/algorithms/solution_179.cpp:36-38 | the comparison weighs the value of a string against its length |
| LargestNumber.SortedDominates | hobbies/leetcode/algorithms/solution_179.cpp:36-43 | concatenating in that order is numerically at least as large as any rearrangement |
| LargestNumber.Largest | hobbies/leetcode/algorithms/solution_179.cpp:31-44 | the result is a numeral without leading zeros, is the value of some arrangement, and no arrangement is larger; all zeros give "0" |
| Palindrome.LongestByCentres | hobbies/leetcode/algorithms/solution_5.cpp:12-44 | returns the longest palindromic substring whose centre comes first |
| Palindrome.Manacher | hobbies/leetcode/algorithms/solution_5.cpp:82-108 | every record is the maximal radius, `max_pos` is its first maximum, and successful inner extensions number less than the padded length |
| Palindrome.LongestByTable | hobbies/leetcode/algorithms/solution_5.cpp:75-118 | returns the first longest palindrome without its `#` characters, after at most 2n extensions |
| Palindrome.Agreement | hobbies/leetcode/algorithms/solution_5.cpp:12-118 | the two answers are equal exactly when the centre version's contains no `#`, and differ in length otherwise |
| Palindrome.SingleHashFails | hobbies/leetcode/algorithms/solution_5.cpp:110-117 | on "#" the table version returns the empty string although the longest palindrome has length one |
| Palindrome.Mirror | hobbies/leetcode/algorithms/solution_5.cpp:87-88 | inside a symmetric stretch, symmetry at a position is symmetry at its mirror image |
| NextPermutation.Next | hobbies/leetcode/algorithms/solution_31.cpp:21-46 | the result is a permutation and the immediate lexicographic successor, or the least one after the greatest |
| NextPermutation.Next2 | hobbies/leetcode/algorithms/solution_31.cpp:48-53 | the library-style version meets the same specification |
| NextPermutation.NextIsUnique | hobbies/leetcode/algorithms/solution_31.cpp:21-53 | the specification determines the array, so the two versions agree |
| NextPermutation.DescendingIsGreatest | hobbies/leetcode/algorithms/solution_31.cpp:41-44 | an array is its greatest arrangement exactly when it descends |
| CycleDetection.DetectCycle | hobbies/leetcode/algorithms/solution_142.cpp:16-34 | terminates on every finite graph of links; returns null exactly when the list ends, otherwise the first node on the cycle |
| CycleDetection.HasCycle | hobbies/leetcode/algorithms/solution_141.cpp:15-27 | true exactly when a cycle is reachable, that is, when the list does not end |
| CycleDetection.MeetingPoints | hobbies/leetcode/algorithms/solution_142.cpp:21-31 | two positions of the walk coincide exactly when both are on the cycle and a multiple of its length apart |
| CycleDetection.MeetingInTime | hobbies/leetcode/algorithms/solution_142.cpp:21-24 | the fast pointer meets the slow one within as many steps as there are nodes |
| CycleDetection.FirstIsUnique | hobbies/leetcode/algorithms/solution_142.cpp:25-29 | the entry node is determined by the list |
| Calculator.Prim | hobbies/leetcode/algorithms/solution_224.cpp:11-44 | the method computes the recursive specification of `prim`, assertion failures included |
| Calculator.Calculate | hobbies/leetcode/algorithms/solution_224.cpp:46-76 | the same for the whole recursive descent |
| Calculator.Calculate2 | hobbies/leetcode/algorithms/solution_224.cpp:78-109 | the loop over two stacks is a run of the stack machine, or fails on an empty stack |
| Calculator.ExprReads | hobbies/leetcode/algorithms/solution_224.cpp:46-71 | a printed expression with any number of signs before every operand, wherever it stands before an end or a closing bracket, is read with its arithmetic value and exactly its characters |
| Calculator.RunExpr | hobbies/leetcode/algorithms/solution_224.cpp:85-105 | the stack machine reads the same expressions with the last of several signs and restores its stacks |
| Calculator.SignsRead | hobbies/leetcode/algorithms/solution_224.cpp:25-41 | inside `prim` a plus is skipped and every minus negates |
| Calculator.RunSigns | hobbies/leetcode/algorithms/solution_224.cpp:91-98 | in the single pass every sign replaces the one in force, which an opening bracket stores |
| Calculator.TwoReadings | hobbies/leetcode/algorithms/solution_224.cpp:73-109 | on every printed expression the parser consumes the whole string and returns the arithmetic value, the single pass the value by its own reading of the signs |
| Calculator.ExprIsLinear | hobbies/leetcode/algorithms/solution_224.cpp:11-109 | in either reading the value is the sum of the numbers, each with the product of the signs of the operands it lies in |
| Calculator.AgreementCondition | hobbies/leetcode/algorithms/solution_224.cpp:11-109 | the calculators agree on all expressions of a shape, whatever the numbers, if and only if these products are the same in both readings at every number |
| Calculator.BothEvaluate | hobbies/leetcode/algorithms/solution_224.cpp:73-109 | for every tree of numbers, binary + and -, brackets and at most one leading sign per expression, with any spaces, both calculators return the tree's value and the parser consumes the whole string |
| Calculator.SecondSignDiffers | hobbies/leetcode/algorithms/solution_224.cpp:25-26 | with a sign after the one operator they agree exactly when the operator is a plus or the number behind is zero |
| Calculator.ExprContinues | hobbies/leetcode/algorithms/solution_224.cpp:46-71 | a printed expression is read up to its end whatever follows it, unless a digit does |
| Calculator.NoOperand | hobbies/leetcode/algorithms/solution_224.cpp:11-49 | spaces alone are zero to both; a lone plus is zero to the descent, a lone minus stops it |
| Calculator.DanglingOperator | hobbies/leetcode/algorithms/solution_224.cpp:11-61 | an operator with nothing behind it stops the descent and adds zero in the single pass |
| Calculator.NotClosed | hobbies/leetcode/algorithms/solution_224.cpp:28-35 | a bracket that is not closed stops the descent and changes nothing in the single pass |
| Calculator.NotOpened | hobbies/leetcode/algorithms/solution_224.cpp:67-102 | a bracket that nothing opened ends the descent with the value so far, and the single pass takes from an empty stack |
| CoinChange.CoinChange | hobbies/leetcode/algorithms/solution_322.cpp:53-57 | returns the fewest coins that pay the amount, or -1 exactly when none do, and only permutes the coins |
| CoinChange.Pruned | hobbies/leetcode/algorithms/solution_322.cpp:28-51 | the same for the pruned recursion on sorted coins |
| CoinChange.BoundNeverFalls | hobbies/leetcode/algorithms/solution_322.cpp:41-44 | k + ceil(x / y) never falls as k decreases, so the break is sound |
| CoinChange.CoverPruned | hobbies/leetcode/algorithms/solution_322.cpp:39-49 | breaking off loses no cheaper payment |
| CoinChange.CoinChangeDP | hobbies/leetcode/algorithms/solution_322.cpp:59-70 | the table gives the same fewest number |
| CoinChange.FewestIsUnique | hobbies/leetcode/algorithms/solution_322.cpp:28-70 | the specification determines the result, so the two agree |
| Kmp.BuildTable | hobbies/leetcode/algorithms/solution_28.cpp:11-18 | every entry from index one on is the longest proper border of its prefix |
| Kmp.StrStr | hobbies/leetcode/algorithms/solution_28.cpp:8-31 | returns the first occurrence or -1, with at most as many fall-backs as the haystack has characters |
| Kmp.FallBack | hobbies/leetcode/algorithms/solution_28.cpp:22-23 | falling back skips only alignments that cannot match |
| WordLadder.LadderLength | hobbies/leetcode/algorithms/solution_127.cpp:32-65 | for a non-empty dictionary the number of words on a shortest ladder, 0 exactly when there is none; words leave the dictionary, none enter |
| WordLadder.Neighbours | hobbies/leetcode/algorithms/solution_127.cpp:47-58 | the letter loops queue and erase exactly the dictionary words one letter away, unless the end word is met |
| WordLadder.StepIs | hobbies/leetcode/algorithms/solution_127.cpp:47-58 | a step changes exactly one position, to one of the letters a to z |
| WordLadder.ShortestIsUnique | hobbies/leetcode/algorithms/solution_127.cpp:2-20 | the specification fixes the answer: the least number of words of a ladder, or 0 |
| WordLadder.NearHasChain | hobbies/leetcode/algorithms/solution_127.cpp:41-62 | what is reached in n rounds is reached by a chain of at most n words |
| WordLadder.LadderIsNear | hobbies/leetcode/algorithms/solution_127.cpp:41-62 | every ladder is found in as many rounds as it has words |
| WordLadder.EmptyDictionary | hobbies/leetcode/algorithms/solution_127.cpp:33 | answering 0 for an empty dictionary is right exactly when the words are not one letter apart |
| Brackets.IsValid | hobbies/leetcode/algorithms/solution_20.cpp:10-32 | true exactly on the three-bracket Dyck language, for every string |
| Brackets.IsValid2 | hobbies/leetcode/algorithms/solution_20.cpp:34-51 | the same, although other characters are pushed like openers |
| Brackets.IsValid3 | hobbies/leetcode/algorithms/solution_20.cpp:53-75 | the same by repeated erasure, which terminates |
| Brackets.ScanIsBalanced | hobbies/leetcode/algorithms/solution_20.cpp:10-32 | scanning with a stack accepts exactly the yields of derivation trees |
| Brackets.BalancedIs | hobbies/leetcode/algorithms/solution_20.cpp:10-32 | the grammar by its literals: empty, or a balanced string within (), [] or {} followed by a balanced string |
| Brackets.ErasureLaws | hobbies/leetcode/algorithms/solution_20.cpp:57-72 | erasing an adjacent pair preserves membership both ways, and every non-empty member has one |
| KthLargest.FindKthLargest | hobbies/leetcode/algorithms/solution_215.cpp:9-38 | returns the k-th largest element and only permutes the array, for 1 <= k <= n |
| KthLargest.FindKthLargest2 | hobbies/leetcode/algorithms/solution_215.cpp:40-69 | the same with the heap on the array's tail |
| KthLargest.SiftDown | hobbies/leetcode/algorithms/solution_215.cpp:16-30 | sinking extends the heap by one position and rearranges only it |
| KthLargest.KthIsUnique | hobbies/leetcode/algorithms/solution_215.cpp:9-69 | the specification determines the element, so the two agree |
| Regex.IsMatch | hobbies/leetcode/algorithms/solution_10.cpp:52-54 | true exactly when the string is in the language the pattern denotes |
| Regex.Match | hobbies/leetcode/algorithms/solution_10.cpp:26-39 | the same for the remainders at two positions |
| Regex.MatchStar | hobbies/leetcode/algorithms/solution_10.cpp:41-50 | the do-while loop decides a starred character followed by the rest |
| Regex.ManyThen | hobbies/leetcode/algorithms/solution_10.cpp:44-47 | iteration followed by a rest may be cut wherever everything before fits |
| Regex.Concatenation | hobbies/leetcode/algorithms/solution_10.cpp:26-50 | a pattern may be taken apart anywhere but in front of a star, and matches what its parts match one behind the other |
| Regex.Literally | hobbies/leetcode/algorithms/solution_10.cpp:12-14 | a pattern of ordinary characters matches itself only |
| Regex.Dots | hobbies/leetcode/algorithms/solution_10.cpp:35 | dots match any characters, one each |
| Regex.Starred | hobbies/leetcode/algorithms/solution_10.cpp:15-17 | a starred character matches any number of it, a starred dot everything |
| FourSum.FourSum | hobbies/leetcode/algorithms/solution_18.cpp:23-58 | the result lists exactly the non-descending quadruples of elements with the target sum, each once |
| FourSum.Pairs | hobbies/leetcode/algorithms/solution_18.cpp:33-45 | for two fixed positions the two pointers find every completing pair of values once |
| FourSum.SolutionPositions | hobbies/leetcode/algorithms/solution_18.cpp:26-48 | in a sorted array, choosing four elements is choosing four increasing positions |
| CountAndSay.CountAndSay | hobbies/leetcode/algorithms/solution_38.cpp:22-47 | the first term is "1"; from any later one, n - 1 run-length decodings lead back to "1"; every term ends in 1 |
| CountAndSay.Say | hobbies/leetcode/algorithms/solution_38.cpp:28-43 | the inner loop reads off the maximal runs |
| CountAndSay.RunsPartition | hobbies/leetcode/algorithms/solution_38.cpp:32-42 | the runs spell out the string and neighbouring runs differ |
| CountAndSay.TermIsWellShaped | hobbies/leetcode/algorithms/solution_38.cpp:22-47 | every term consists of the digits 1 to 3 and has no run of four |
| CountAndSay.TermDecodes | hobbies/leetcode/algorithms/solution_38.cpp:5-10 | run-length decoding a term gives back the one before |
| CountAndSay.TermLeadsBack | hobbies/leetcode/algorithms/solution_38.cpp:22-47 | n - 1 decodings of the n-th term give "1" |
| CountAndSay.LastStays | hobbies/leetcode/algorithms/solution_38.cpp:22-47 | every term ends like the first |
| WordBreak.WordBreak | hobbies/leetcode/algorithms/solution_139.cpp:28-51 | the interval tables accept exactly the non-empty sequences of dictionary words |
| WordBreak.WordBreak2 | hobbies/leetcode/algorithms/solution_139.cpp:53-71 | the prefix table accepts exactly the sequences of dictionary words |
| WordBreak.IntervalStep | hobbies/leetcode/algorithms/solution_139.cpp:41-48 | a stretch breaks up exactly when it is a word or two shorter stretches that do |
| WordBreak.OnlyEmptyDiffers | hobbies/leetcode/algorithms/solution_139.cpp:28-71 | the two versions differ on the empty string only |
| Tea.RoundsInvert | cpp/release/tea.cpp:19-39 | one round of `decipher` undoes one round of `encipher`, and the reverse, modulo 2^32 |
| Tea.DecipherUndoesEncipher | cpp/release/tea.cpp:15-42 | the same for any number of rounds, every key and every block |
| Tea.XorOfBits | cpp/release/tea.cpp:21-22 | bit by bit: the two exclusive ors add bits modulo two, the second with the bits of the other half five places up |
| Tea.MixUpdates | cpp/release/tea.cpp:21-22 | an assignment of a round is old + (v << 4) + (mix ^ v) + (sum ^ (v >> 5)) + add modulo 2^32, and no other value fits |
| Tea.RoundIsRound | cpp/release/tea.cpp:19-39 | one round, in both directions, is the two assignments in their order |
| Tea.EncCourse | cpp/release/tea.cpp:15-26 | n rounds pass through n + 1 blocks, neighbours being one round apart with the next multiple of delta |
| Tea.StartSum | cpp/release/tea.cpp:30-34 | the literal that `decipher` starts from is sixteen times delta |
| Tea.Encipher | cpp/release/tea.cpp:15-26 | sixteen rounds of the source's formula, given by the bits of the two exclusive ors and arithmetic modulo 2^32, the sum going through the multiples of delta |
| Tea.Decipher | cpp/release/tea.cpp:28-42 | finds the block from which sixteen such rounds lead to the given one |
| Tea.Encode | cpp/release/tea.cpp:44-64 | writes length, padded message and enciphered blocks and touches nothing behind them, or refuses a short buffer |
| Tea.BlockLayout | cpp/release/tea.cpp:46-49 | byte j of each word of a block is its j-th digit to the base 256 |
| Tea.EncodedHead | cpp/release/tea.cpp:44-57 | an encoded message has two bytes of length, high byte first, and the least whole number of blocks |
| Tea.EncodedBlock | cpp/release/tea.cpp:58-62 | every eight bytes of the message, zeros behind its end, are enciphered on their own |
| Tea.Decode | cpp/release/tea.cpp:66-86 | deciphers all blocks, refusing a message too long for the buffer or not made of blocks |
| Tea.DecodeUndoesEncode | cpp/release/tea.cpp:44-86 | messages of up to 65535 bytes survive |
| Packet.OPacket.Put | cpp/release/packet.h:380-455 | a field is written at the position exactly when the overwrite checks pass, and then its base-256 digits, or its length and characters, stand there; a failed write changes nothing or leaves a length field behind, the position and length moved past it |
| Packet.CRange | cpp/release/packet.h:380-443 | a number is well typed exactly within the literal range of its C type, and the one, two, four or eight bytes it takes are just enough for that range |
| Packet.FieldStands | cpp/release/packet.h:380-455 | the bytes written for a field are the base-256 digits of a number, least first, or a text's length, low byte first, and its characters, and nothing else |
| Packet.FieldAt | cpp/release/packet.h:380-455 | in the written data field i stands behind all fields before it, each taking the bytes of its C type |
| Packet.OPacket.Encode | cpp/release/packet.cpp:6-28 | replaces the data by its encoding once and sets the flag |
| Packet.OPacket.Wind | cpp/release/packet.h:470-473 | records the data size in the header |
| Packet.IPacket.Append | cpp/release/packet.h:212-235 | how many bytes of a chunk are taken, in every case, and that they are appended |
| Packet.IPacket.CompleteAtLastByte | cpp/release/packet.h:242-245 | on a prefix of a packet, complete means all of it |
| Packet.IPacket.Get | cpp/release/packet.h:247-333 | reads the field at the position, throws at the end of the data, or stops at the position assertion (with `CRange`, `ReadsStanding` and `PassesIf`) |
| Packet.IPacket.Decode | cpp/release/packet.cpp:30-44 | replaces the data by its deciphered content, as far as the length field asks for it, or changes nothing |
| Packet.ReadsField | cpp/release/packet.h:247-333 | a field is read back from where it was written unless the position assertion stops the reader |
| Packet.ReadsStanding | cpp/release/packet.h:247-333 | whatever bytes stand for a field in this sense are read as that field |
| Packet.PassesIf | cpp/release/packet.h:247-333 | the bounds of the position assertions by their literals: 32768 for an int8 and a text, 32756 for the rest, a text's length among them |
| Packet.LastByteStops | cpp/release/packet.h:255-261 | a packet that can be sent whose last byte the reader's position assertion refuses |
| Packet.Send | cpp/release/packet.h:353-473 | the header is 50 50 04 00, the length of what follows with its low byte first and six zeros; behind it stand the written fields, enciphered (with `FieldAt`) |
| Packet.WireLooks | cpp/release/packet.h:353-363 | a packet as it is sent, byte by byte up to its payload |
| Packet.Receive | cpp/release/packet.h:212-346 | chunks of that packet make it complete exactly at its last byte, and decoding and reading the same types returns the same fields, if and only if no position assertion is reached |
| Bits.BitShiftLeft | cpp/utils/bitstream.h:27-41 | shifting moves bits |
| Bits.BitAndNot | cpp/utils/bitstream.h:30 | clearing under a mask clears exactly the masked bits |
| BitStream.WidthIs | cpp/utils/bitstream.h:19-47 | the widths allowed are exactly those whose power of two is an `int` |
| BitStream.Stream.Write | cpp/utils/bitstream.h:19-47 | stores the low bits of n at the offset in the order of the mode and changes no other bit, whatever the buffer held, for 0 to 30 bits within capacity |
| BitStream.Stream.Read | cpp/utils/bitstream.h:49-71 | returns the number whose bits are stored there and moves the offset only |
| BitStream.Stream.Append | cpp/utils/bitstream.h:73-77 | writes behind the last bit written |
| BitStream.ReadBack | cpp/utils/bitstream.h:19-71 | in both modes, reading the same width at the same offset returns n mod 2^bits |
| BitStream.FieldSurvives | cpp/utils/bitstream.h:19-47 | a write elsewhere does not disturb a stored field |
| BitStream.PlainReadIsSlice | cpp/utils/bitstream.h:61-65 | in plain mode a read is the slice of the abstract bit sequence |
| BitStream.AnySplit | cpp/utils/bitstream.h:49-71 | however a stretch is divided, its slices put together are the one long slice |
| BitStream.AppendAll | cpp/utils/bitstream.h:73-77 | a run of appends stores every field behind the one before |
| BitStream.ReadAll | cpp/utils/bitstream.h:49-71 | a run of reads of any widths returns what is stored there; in plain mode the results put together are the one long slice |
| BitStream.AppendAndReadBack | cpp/utils/bitstream.h:19-77 | in both modes, fields appended one after another are all read back, each modulo two to its width |
| BitStream.SourceIsOnto | cpp/utils/bitstream.h:33-39 | every bit of the number has its place in the field, in both modes |
| BinaryMessage.PackUnpack | python/tools/binary-message/ouou/util/basetypes.py:22-37 | a number that struct.pack accepts is unpacked as itself |
| BinaryMessage.LargeRoundTrip | python/tools/binary-message/ouou/util/basetypes.py:84-99 | a 32-bit LargeInt is read back as written exactly below magnitude 2^29 |
| BinaryMessage.ValueBack | python/tools/binary-message/ouou/message/message.py:89-128 | by induction over all schemas: a written value standing anywhere in a buffer is read back with exactly its bytes, even by an object that so far agrees with the written one only on the attributes the layout depends on |
| BinaryMessage.AttrsBack | python/tools/binary-message/ouou/message/message.py:59-128 | attribute by attribute, conditions are decided the same way on both sides |
| BinaryMessage.MembersBack | python/tools/binary-message/ouou/message/response.py:59-63 | the members that the `fields` list selects, repeats included, come back |
| BinaryMessage.RecordsBack | python/tools/binary-message/ouou/message/response.py:80-94 | the same for a vector of such objects |
| BinaryMessage.VectorBack | python/tools/binary-message/ouou/util/comptypes.py:110-121 | length-prefixed vectors come back |
| BinaryMessage.ArrayLength | python/tools/binary-message/ouou/util/comptypes.py:84-106 | a fixed-size array comes back exactly when it had its declared length |
| BinaryMessage.RoundTrip | python/tools/binary-message/ouou/message/message.py:89-128 | parsing the serialised bytes followed by any suffix returns the object and consumes exactly its bytes |
| BinaryMessage.Unambiguous | python/tools/binary-message/ouou/message/message.py:89-107 | no serialised object is a prefix of another's bytes |
| BinaryMessage.Body2Bytes | python/tools/binary-message/ouou/message/message.py:89-104 | the accumulating loop serialises the attributes whose conditions hold, or fails on an unset or unfit one |
| BinaryMessage.ToBytes | python/tools/binary-message/ouou/util/comptypes.py:38-121 | the serialisation of every type, failures included; `WireForm` says of each type which bytes these are |
| BinaryMessage.Reader.ReadBytes | python/tools/binary-message/ouou/util/stream.py:23-26 | returns Python's slice and advances by the size asked for, even past the end or backwards |
| BinaryMessage.Reader.ReadType | python/tools/binary-message/ouou/util/stream.py:28-33 | the cursor-moving readers compute the parse of every type; `WireForm` says of each type what that is |
| BinaryMessage.Reader.ReadAttrs | python/tools/binary-message/ouou/message/message.py:109-128 | attributes are set one by one, each condition asked of the object as it stands |
| BinaryMessage.SendAndReceive | python/tools/binary-message/ouou/message/message.py:89-136 | a fresh reader gets the object back from what body2bytes produced |
| WireForm.PackRanges | python/tools/binary-message/ouou/util/basetypes.py:22-37 | struct.pack accepts exactly the literal ranges of the C types |
| WireForm.PackBytes | python/tools/binary-message/ouou/util/basetypes.py:22-37 | and writes base-256 digits, least first |
| WireForm.TextWritten | python/tools/binary-message/ouou/util/comptypes.py:23-43 | a text up to 32767 bytes is its length, low byte first, and its bytes; a longer one is refused |
| WireForm.LargeWritten | python/tools/binary-message/ouou/util/basetypes.py:84-99 | a LargeInt is written unscaled in four bytes, within 32 bits |
| WireForm.ExpandIs | python/tools/binary-message/ouou/util/basetypes.py:84-99 | the scale by its literals: 1, 16, 256, 4096, 65536, the sign kept |
| WireForm.VectorWritten | python/tools/binary-message/ouou/util/comptypes.py:110-121 | a vector is its length and its items' bytes, one behind the other, and fails exactly when the length or an item does |
| WireForm.ArrayWritten | python/tools/binary-message/ouou/util/comptypes.py:84-106 | an array is its items' bytes, filled up with blanks to its declared length and never cut |
| WireForm.ObjectWritten | python/tools/binary-message/ouou/message/message.py:89-104 | an object is the bytes of its attributes in order, none for one whose condition denies it, and fails exactly when one of the others is unset or unfit |
| WireForm.SelectedIs | python/tools/binary-message/ouou/message/response.py:59-63 | the `fields` list is refused exactly when an entry is no number in 1 - n to n; entry x chooses member x - 1, counted from the end when negative |
| WireForm.OrdinarySelection | python/tools/binary-message/ouou/message/response.py:59-63 | numbers in 1 to n always choose the members they number |
| WireForm.VarFieldsWritten | python/tools/binary-message/ouou/message/response.py:59-63 | what is written is, entry by entry of `fields`, the attribute that the entry's number names; it fails exactly when one is missing or unfit |
| WireForm.VarVectorWritten | python/tools/binary-message/ouou/message/response.py:87-94 | a vector of such objects is its length and each object's bytes |
| WireForm.ObjectRead | python/tools/binary-message/ouou/message/message.py:109-128 | an object is read attribute by attribute from where the one before ended, up to the first failure |
| WireForm.VarFieldsRead | python/tools/binary-message/ouou/message/response.py:59-63 | what is read is, entry by entry of `fields`, the value of the member that the entry names, set under that member's name; an entry that names none makes it fail |
| WireForm.VarVectorRead | python/tools/binary-message/ouou/message/response.py:80-86 | the length read says how many such objects follow |
| WireForm.VectorRead | python/tools/binary-message/ouou/util/comptypes.py:110-121 | the length read says how many items follow, each from where the one before ended |
| WireForm.ArrayRead | python/tools/binary-message/ouou/util/comptypes.py:84-106 | exactly the declared number of items is read |
| WireForm.IntRead | python/tools/binary-message/ouou/util/basetypes.py:22-37 | a number is read as the one in range whose bytes stand there, and fails exactly when too few are left |
| WireForm.TextRead | python/tools/binary-message/ouou/util/comptypes.py:23-43 | a text is its signed two-byte length and that many bytes or as many as are left; a negative length moves the offset back |
| WireForm.CanonicalLarge | python/tools/binary-message/ouou/util/basetypes.py:84-99 | the round trip covers exactly the LargeInts that are read back as written |
| WireForm.ResponsesAreWellFormed | python/tools/binary-message/ouou/message/response.py:203-208 | the schemas of TimeTrend and Response_5501, with members of numbers and texts, are among those the round trip is proved for |
| WireForm.LargeRead | python/tools/binary-message/ouou/util/basetypes.py:84-99 | a LargeInt is read as the scaled value of the 32-bit number that stands there |
| WireForm.SliceOf | python/tools/binary-message/ouou/util/stream.py:23-26 | Python's slices: within the buffer, past its end, and with negative bounds |
| RangeString.ToRangeStr | python/tools/binary-message/ouou/util/functions.py:10-28 | sorts, and writes one word for each group of consecutive numbers, single blanks between them: the decimal of a lone number, of more the first and the last with a dash between |
| RangeString.GroupsPartition | python/tools/binary-message/ouou/util/functions.py:17-18 | the groups are consecutive runs that make up the sorted list |
| RangeString.GroupsAreMaximal | python/tools/binary-message/ouou/util/functions.py:12-13 | consecutive numbers are combined as far as possible |
| RangeString.RangeStrToList | python/tools/binary-message/ouou/util/functions.py:30-36 | the loop expands every token or fails; what that is follows from `ReadToken`, `ReadSeparator` and `ExpandPieces` |
| RangeString.ReadSeparator | python/tools/binary-message/ouou/util/functions.py:32 | white space or a comma at the end changes nothing |
| RangeString.ReadToken | python/tools/binary-message/ouou/util/functions.py:32-34 | a token behind a separator adds what it stands for, or makes reading fail |
| RangeString.StripIsIdle | python/tools/binary-message/ouou/util/functions.py:32 | stripping the ends changes none of the tokens |
| RangeString.ReadTwo | python/tools/binary-message/ouou/util/functions.py:30-36 | two digit strings with any separator between them are read as the two numbers |
| RangeString.PiecesAre | python/tools/binary-message/ouou/util/functions.py:33 | the pieces of a token contain no dash and make it up again when joined by dashes |
| RangeString.ExpandPieces | python/tools/binary-message/ouou/util/functions.py:33-34 | a token stands for all numbers from its first piece to its last, and is refused exactly when a piece is no number |
| RangeString.ExpandIs | python/tools/binary-message/ouou/util/functions.py:33-34 | a digit string stands for its value, two with a dash for the numbers between them, both ends included |
| RangeString.ParseIs | python/tools/binary-message/ouou/util/functions.py:33 | `int` takes a digit string by its decimal value, with or without a plus or an inner underscore |
| RangeString.ParseRefuses | python/tools/binary-message/ouou/util/functions.py:33 | and refuses everything else: nothing, other characters, misplaced signs and underscores |
| RangeString.RoundTrip | python/tools/binary-message/ouou/util/functions.py:10-36 | what is written is read back as the sorted list, repeats included, exactly when no number is negative; otherwise reading fails |

## Left out

- Sockets, event loops, TLS, databases, RPC, web code, crawlers and build files: I/O or libraries that are not shown.
- `cpp/profile/task_queue/task_queue.h`, `cpp/model/base/src/net/timerqueue.cpp` and `python/tools/binary-message/ouou/net/base_client.py`: unfinished, or without the natural property.
- Variants that do not meet an obvious specification: `longestPalindrome2`, `isMatch2`, `compare_func` and `largestNumber2`.
- Overflow of `int` in the algorithm collection; `Calculator` therefore takes `stol` as exact, and `Palindrome`, `Rotate` and `CoinChange` count without bound.
- Rotate.RotateByCycles: takes k >= 0 only; a negative k is converted by C++ in a way the program does not intend.
- Kmp.StrStr: an empty needle makes the program index outside its table, so it is excluded.
- CoinChange.CoinChange: coins are positive; a zero coin divides by zero in the original.
- KthLargest.FindKthLargest: k outside 1..n indexes outside the array in the original.
- KthLargest.SiftDown: the sinking loop, written out in both selections, is one method here, with the start of the heap as a parameter.
- FourSum.Pairs: the two-pointer loop is a method of its own; the printing at the end of `fourSum` is dropped.
- SemQueue.Safety: semaphores and mutex are atomic counters and flags; fairness is not needed for the results and not assumed.
- CondQueue.RunsAreBounded: the number of spurious wake-ups is a parameter of the bound, because the standard sets no limit.
- `capacity_` of the condition-variable queue is never used by the program and is not modelled.
- WordLadder.LadderLength: the iteration order of the hash set does not matter to the program and is not modelled; words are strings of any characters.
- Tea.Decode: buffer sizes the program does not check are preconditions.
- Packet.OPacket.Put: the unchecked 64-bit write needs room as a precondition; the `const char*` operators and byte-order macros other than the little-endian ones are not modelled.
- Packet.IPacket.Append: chunks that run past the end of a packet are covered by the contract of this one call; reassembly is proved for chunks that end with the packet.
- Packet.IPacket.Decode: when the length field asks for more bytes than were deciphered, the program copies uninitialised memory behind them; those bytes are left open.
- Packet.Receive: assertions are taken as enabled; with assertions compiled out every packet is read back.
- BitStream.Stream.Write: more than 30 bits overflow the shift in the original; the array overloads and `dump` are repetitions of these calls and printing.
- BinaryMessage.RoundTrip: strings are their encoded bytes, so text encodings, and Python values that are converted to the attribute's type while writing, are not modelled; neither are floats, `Char`, `Long` (whose width is the platform's), `CString`, `VarArray`, `extra_parse`, `MarketPrice`, message headers, compression and `MultipleMessage`.
- BinaryMessage.Body2Bytes: attribute values already have the attribute's type; the conversion of other Python values before writing is not modelled, so such values count as failures.
- BinaryMessage.ToBytes: the same for list elements that are not yet of the element type.
- BinaryMessage.ValueBack: conditions and layouts may depend on mandatory attributes that come earlier, which is how the repository uses them.
- BinaryMessage.Unambiguous: stated for objects of one class; dispatch by message number is not part of this model.
- RangeString.RangeStrToList: digits and white space outside ASCII, which Python's `int` and `split` also accept, are not modelled; `to_range_str` writes none.
- Regex.IsMatch: the pattern grammar is the program's, in which a leading `*` is an ordinary character.
- The remaining small solutions of the collection (binary searches, list reversals, single-pass counters): they would only add easy members.
