# IMUtility in Dafny

IMUtility is a C library of small algorithms that work on buffers supplied by the caller: CRC engines, sorts, a priority
queue, a ring queue, a flat map, Base64, a small JSON writer and searcher, and a decimal number reader. This project
models those algorithms in Dafny and proves what they promise, for all inputs.

Each algorithm appears twice. The *program* is a method or a class that follows the C code step by step, over arrays
that it updates in place. The *specification* is a function on values. Every method's contract equates its result, or
the new contents of its buffers, with the specification function. What the algorithm is for is then proved about the
specification as lemmas, against an independent definition: polynomial division, the stable sort, the finite map, the
bit-level text of RFC 4648, a text cut at its quotes, the number a string of digits denotes.

| file | what it holds |
|---|---|
| `Common.dfy` | integer ranges and the optional value that several modules share |
| `Bits.dfy`, `Gf2.dfy` | words as bit sequences; polynomials over GF(2), their product, division and unique remainder |
| `BitManipulation.dfy`, `Crc.dfy` | the bit reversal, the table calculator and the byte-wise engine, one model for 8, 16 and 32 bits |
| `CrcTheory.dfy`, `CrcCodewords.dfy`, `CrcReflected.dfy`, `CrcVariants.dfy` | the run as a polynomial remainder, error detection, codewords, the reflected form, chunked use |
| `Products.dfy`, `BlockBuffer.dfy`, `Overlay.dfy` | a flat byte buffer as equal blocks, `memcpy` and `Utils_swapElements` on it |
| `Ordering.dfy` | comparators, sortedness, permutation, stability, uniqueness of a sort |
| `HeapSpec.dfy`, `HeapCost.dfy`, `HeapSort.dfy`, `BubbleSort.dfy`, `HeapReach.dfy`, `BubblePasses.dfy`, `SelectionSort.dfy`, `SortAgreement.dfy`, `SortTies.dfy` | the three sorts, their costs, and when they agree |
| `PrioritySpec.dfy`, `PriorityRuns.dfy`, `PriorityQueue.dfy`, `RingQueue.dfy`, `FlatMap.dfy` | the stateful containers |
| `Base64.dfy`, `Base64Examples.dfy`, `Base64Decoding.dfy`, `Base64Canonical.dfy`, `Base64Normal.dfy` | the codec, its alphabet, both round trips, what a decoding depends on, and what any text decodes to |
| `Json.dfy`, `JsonFind.dfy`, `JsonTheory.dfy`, `JsonRoundTrip.dfy` | the JSON writer, the search, and what the search finds |
| `ParseUint.dfy` | reading a decimal number into 32 bits |

Modelling decisions:

- Bytes are `bv8`. CRC registers are sequences of bits, most significant first, so the width is a parameter; shifts lose
  the bits that leave the register.
- A comparator is a pure function of the bytes of two elements. Heap sort's comparator calls at positions outside the
  heap return an arbitrary answer in the model, so its results hold whatever such a call returns.
- `Times(i, size)` is the product of an index and an element size. The C code computes it in 32 bits and relies on the
  caller for products that fit. The containers and the sorts require the same: below 2^32 for `uint32_t` positions,
  below 2^31 for `int32_t` ones, and for heap sort up to the children of the last leaf, whose positions it computes.
- Wrap-around that the code can reach is written out: selection sort's `number_of_elements - 1U` for an empty buffer, the
  ring queue's `rear + 1U`, the Base64 length guard and the decoder's lengths in 64 bits, the masked shift count of the
  bit reversal, the 32-bit sums of the number reader.
- Buffers that a function receives separately do not overlap; this is a precondition on distinct arrays.

Where the code and its documentation differ, the model follows the code:

- `Base64_encode` writes its terminating NUL behind the last character it stored. An accepted call that just fits, and a
  call rejected for lack of room when `max_result_length` is a multiple of four, write it at index `max_result_length`;
  all other calls stay inside, those that the length guard stops because they write nothing. `Base64.StaysInsideIff` is
  the exact condition.
- `Base64_decode` accepts nothing that decodes to fewer than three bytes and accepts every character. Outside the
  alphabet `-` and `.` count as 62, `,` and `_` as 63, and all others as 0. When the length is one more than a multiple
  of four it uses the byte behind the text; `Base64Canonical.DecodedIndependentIff` and `StoredIndependentIff` say when
  the result depends on it.
- `Json_addData` appends its comma before it checks the size. A rejected call therefore changes a text that ends in a
  quote. If that text and its NUL fill the buffer, the NUL behind the comma lands at index `buffer_size`; by
  `Json.AddedInsideIff` that is the only case.
- `Json_findByKey` finds the first place where the key's characters occur, not the first key that equals it.
- `Utils_StringToUint32` rejects 11 or more characters even if the leading ones are zeros, and reads an empty string as 0
  (`ParseUint.LengthRules`).
- `HeapSort_sort` hands the comparator positions outside the buffer: always for one element and for every even number of
  them, and for an odd number when it moves an element into a leaf (`HeapReach.BeyondIff`).

## Model

| member | source | states |
|---|---|---|
| `Gf2.DivisionIdentity` | Src/crc/crc32_base.c:47-59 | long division over GF(2) is correct: dividend = quotient * (x^w + p) + remainder |
| `Gf2.ReduceIsTheRemainder` | Src/crc/crc32_base.c:47-59 | the remainder exists, is what long division computes, and is unique (both directions) |
| `Gf2.MultipleIffZeroRemainder` | Src/crc/crc32_base.c:47-59 | a polynomial is a multiple of the generator exactly when its remainder is zero |
| `Gf2.ReduceLinear` | Src/crc/crc32_base.c:47-59 | taking remainders commutes with exclusive or |
| `BitManipulation.Reflect` | Src/bit_manipulation.c:39-60 | the loop returns the n low bits reversed and all higher bits clear for n up to 32, and for larger n, where the masked shift wraps around, the reversed word rotated by n mod 32 |
| `BitManipulation.ReflectedAt` | Src/bit_manipulation.c:39-60 | for every n, index j of the result shows bit (n + j) mod 32 of the operand if that bit is below n, and is clear otherwise |
| `BitManipulation.ReflectedNarrow` | Src/bit_manipulation.c:39-60 | reflecting a widened 8, 16 or 32 bit register reverses exactly that register |
| `Crc.TableCalculator` | Src/crc/crc32_base.c:42-60 | fills the 256 entries, each with eight bit steps of its index placed at the top of the register |
| `Crc.InputByte` | Src/crc/crc32_base.c:79-83 | the byte is fed as it is or bit-reversed, by the flag |
| `Crc.Output` | Src/crc/crc32_base.c:90-97 | reversal and final exclusive or are applied in this order, each only under its flag |
| `Crc.Base` | Src/crc/crc16_base.c:62-97 | the 16 and 32 bit loops compute the byte-wise run over the whole message and the output stage |
| `Crc.Base8` | Src/crc/crc8_base.c:62-98 | the 8 bit loop, whose register is the table index, computes the same function at width 8 |
| `Crc.ShiftedOut` | Src/crc/crc8_base.c:85-86 | the 8 bit byte step is the general one: nothing of the old register survives the shift |
| `CrcTheory.ReduceOfRegister` | Src/crc/crc32_base.c:50-56 | n bit steps on a register are the division of register * x^n by the generator |
| `CrcTheory.TableLinear` | Src/crc/crc32_base.c:47-59 | the table is exclusive-or linear: T[a ^ b] = T[a] ^ T[b] |
| `CrcTheory.ByteStepIsBitSteps` | Src/crc/crc32_base.c:85-86 | one table lookup equals eight bitwise steps after the byte is added at the top of the register |
| `CrcTheory.RunIsReduce` | Src/crc/crc32_base.c:73-88 | the table-driven run is the long division of init * x^(8n) + message * x^w |
| `CrcTheory.RunIsTheRemainder` | Src/crc/crc16_base.c:73-87 | the register after a message is the remainder modulo x^w + p(x), and no other word is, for every width, polynomial, initial value and message |
| `CrcTheory.RunConcat` | Src/crc/crc32_base.c:73-88 | running over a concatenation is running over the parts one after the other |
| `CrcTheory.FinishAt` | Src/crc/crc32_base.c:90-97 | bit i of the result is the register's bit, from the other end if reflected, with the final value's bit i added under its flag |
| `CrcTheory.FinishInjective` | Src/crc/crc32_base.c:90-97 | the output stage never makes two registers equal |
| `CrcTheory.ValueIsFinishedRemainder` | Src/crc/crc32_base.c:62-98 | what the engine returns, for every width, polynomial, message, initial value and setting of the three flags: a word is the remainder exactly when the returned value is that word, from the other end if the output is reflected, with the final value added bit by bit under its flag |
| `CrcTheory.UndetectedIffMultiple` | Src/crc/crc32_base.c:62-98 | two messages of one length have the same CRC exactly when their difference is a multiple of the generator, whatever the initial value, reflections and final value |
| `CrcTheory.NonzeroSurvives` | Src/crc/crc8_base.c:50-56 | with an odd polynomial the bit steps are invertible at zero: a nonzero register never becomes zero |
| `CrcTheory.BurstDetected` | Src/crc/crc16_base.c:62-97 | with an odd polynomial every error inside w consecutive fed bits changes the CRC |
| `CrcTheory.LongBurstMissedIff` | Src/crc/crc16_base.c:62-97 | w is the exact limit: of the errors of w + 1 bits that begin with a wrong bit an odd polynomial misses exactly the one that equals the generator |
| `CrcTheory.DamagedWindowDetected` | Src/crc/crc8_base.c:62-98 | with an odd polynomial every change inside w/8 consecutive bytes changes the CRC, under any settings |
| `CrcCodewords.AppendedRegisterIsZero` | Src/crc/crc32_base.c:73-88 | a run over a message followed by its own register's bytes gives zero, for every message and initial value; with an odd polynomial no other bytes do |
| `CrcCodewords.OddErrorsDetected` | Src/crc/crc16_base.c:62-97 | a generator with an even number of terms detects every error in an odd number of bits, under any settings |
| `CrcReflected.ReflectedRunIsLsbRun` | Src/crc/crc32_base.c:79-92 | with reflected input and output the engine is the right-shifting bitwise CRC on reversed parameters, for every message |
| `CrcReflected.LsbTableRunIsLsbRun` | Src/crc/crc32_base.c:73-88 | the right-shifting table form equals the right-shifting bitwise form |
| `CrcVariants.Crc32IsRfc1952` | Src/crc/crc32_variants/crc32.c:88-111 | `Crc32` of a whole message is the checksum of section 8 of RFC 1952 |
| `CrcVariants.Crc32ChunkedIsWhole` | Src/crc/crc32_variants/crc32.c:88-111 | any split of a message into chunks, empty ones included, threaded through `last_crc_ptr` with `final_crc` only on the last call, gives the CRC of the whole |
| `CrcVariants.Crc32Mpeg2ChunkedIsWhole` | Src/crc/crc32_variants/crc32_mpeg2.c:87-103 | the same for the wrapper that has no final stage |
| `CrcVariants.Crc32Mpeg2IsRemainder` | Src/crc/crc32_variants/crc32_mpeg2.c:87-103 | `Crc32_mpeg2` returns the remainder for the byte string's own bits, from all ones or from the last CRC, and no other word is that remainder |
| `CrcVariants.UnfinishedCrc32IsRemainder` | Src/crc/crc32_variants/crc32.c:88-111 | with `final_crc` false `Crc32` returns the remainder for the message with the lowest bit of each byte first, and no other word is that remainder |
| `CrcVariants.FinalCrcIsComplement` | Src/crc/crc32_variants/crc32.c:88-111 | `final_crc` returns the same register reversed and complemented, from any last CRC |
| `CrcVariants.PolynomialNumbers` | Src/crc/crc32_variants/crc32.c:54 | the polynomial is the number 0x04C11DB7, the table's entry at index one, and its reflected form in RFC 1952 is 0xEDB88320 |
| `CrcVariants.ResidueIff` | Src/crc/crc32_variants/crc32.c:88-111 | for every message and initial value the checksum of the message with four bytes behind it is one constant exactly when they are the message's own checksum, low byte first |
| `CrcVariants.LowFirstFeeds` | Src/crc/crc32_variants/crc32.c:88-111 | fed low byte first, the checksum's bits enter the division in reverse |
| `BlockBuffer.SwapElements` | Src/utils.c:91-101 | the byte loop exchanges two regions, in two buffers or apart in one, and changes no other byte |
| `BlockBuffer.SwapRegionsSwapsBlocks` | Src/utils.c:91-101 | at the level of blocks that exchange is a swap of two elements |
| `BlockBuffer.BlocksDetermineBytes` | Src/utils.c:91-101 | two buffers have the same blocks exactly when they have the same bytes |
| `HeapSort.Heapify` | Src/sort/heap_sort.c:39-71 | the loop leaves the sifted-down blocks and untouched rest in the buffer, whatever the comparator answers outside the heap, makes exactly the counted calls, and reports whether it compared a position outside the buffer |
| `HeapSort.BuildHeap` | Src/sort/heap_sort.c:78-80 | the first loop builds the heap of the blocks with exactly the counted calls, for a negative count above the smallest too |
| `HeapSort.ExtractAll` | Src/sort/heap_sort.c:82-85 | the second loop extracts them with exactly the counted calls |
| `HeapSort.Sort` | Src/sort/heap_sort.c:73-86 | for every signed count but the smallest, from which the second loop subtracts one, the buffer ends as the heap sort of its blocks, the bytes behind them unchanged, with exactly the counted comparator calls |
| `HeapReach.BeyondIff` | Src/sort/heap_sort.c:46-85 | for every comparator a position outside the buffer is compared exactly for one element, for every even number of at least two, and for an odd number of at least three when some sift moves an element into a leaf |
| `HeapReach.EqualsStayInside` | Src/sort/heap_sort.c:46-85 | an odd number of at least three equal elements stays inside |
| `HeapSpec.SiftDownRestoresHeap` | Src/sort/heap_sort.c:46-70 | sifting down one too small element restores the heap order |
| `HeapSpec.LargestIsFirstGreatest` | Src/sort/heap_sort.c:46-61 | each round picks the first of the greatest among an element and its children, the left child before the right one |
| `HeapSpec.HeapSortPermutes` | Src/sort/heap_sort.c:73-86 | for any comparator, even one that is no order, the result is a rearrangement |
| `HeapSpec.HeapSortIsASort` | Src/sort/heap_sort.c:73-86 | and it is sorted under every strict weak order |
| `HeapCost.BuildCallsLinear` | Src/sort/heap_sort.c:78-80 | at most 3n - 2 comparator calls to build the heap of n >= 1 elements, for any comparator |
| `HeapCost.HeapSortCallsBound` | Src/sort/heap_sort.c:73-86 | fewer than 3n calls in the build phase and at most 3n(floor(log2 n) + 1) in all, for any comparator |
| `HeapCost.HeapSortCallsFrom` | Src/sort/heap_sort.c:73-86 | at least 2 * (n / 2) + 2n calls for any comparator, and exactly that many when no element is greater than another |
| `BubbleSort.Sort` | Src/sort/bubble_sort.c:39-55 | for every signed count but the smallest, from which the outer loop subtracts one, the buffer ends as the bubble sort of its blocks, the rest unchanged, with the counted swaps and passes; at most max(n, 1) passes for any comparator |
| `BubbleSort.BubbleSortIsASort` | Src/sort/bubble_sort.c:39-55 | a rearrangement for any comparator, sorted for any strict weak order despite shrinking passes and early exit |
| `BubbleSort.BubbleSortStable` | Src/sort/bubble_sort.c:39-55 | elements the comparator does not tell apart keep their order |
| `BubbleSort.BubbleSortCost` | Src/sort/bubble_sort.c:39-55 | the number of swaps is the number of inversions of the input |
| `BubbleSort.PassCountBound` | Src/sort/bubble_sort.c:44-54 | at most max(n, 1) passes for any comparator |
| `BubblePasses.PassBefore` | Src/sort/bubble_sort.c:47-52 | a pass moves the counts of greater elements before each position one place to the left and takes one off each that is not zero |
| `BubblePasses.PassCountExact` | Src/sort/bubble_sort.c:44-54 | under a strict weak order the number of passes is one more than the most greater elements that stand before any element |
| `SelectionSort.MinIndexIsLeast` | Src/sort/selection_sort.c:47-52 | under a strict weak order the position found holds a least element, and everything before it is greater |
| `SelectionSort.FindMin` | Src/sort/selection_sort.c:47-52 | the inner loop returns the position that the specification finds |
| `SelectionSort.Sort` | Src/sort/selection_sort.c:39-58 | the buffer ends as the selection sort of its blocks, the rest unchanged, including zero elements where the bound wraps |
| `SelectionSort.SelectionSortIsASort` | Src/sort/selection_sort.c:39-58 | a rearrangement for any comparator, sorted for any strict weak order, for every count below 2^32 |
| `SortAgreement.SortsAgree` | Src/sort/selection_sort.c:46-57 | under a strict total order the three sorts return the same sequence |
| `SortAgreement.SortedBuffersAgree` | Src/sort/bubble_sort.c:45-54 | and leave the same bytes in the buffer |
| `SortAgreement.TiesSeparateSorts` | Src/sort/selection_sort.c:46-57 | with ties they can differ: a concrete input on which selection sort is not stable |
| `SortTies.LiftedBuilds` | Src/sort/heap_sort.c:78-85 | two arrangements that order a tied pair differently are built into the same heap, so heap sort is not stable |
| `SortTies.SortsAgreeIffTieFree` | Src/sort/heap_sort.c:73-86 | under a strict weak order the three sorts agree on every arrangement of some elements exactly when no two different ones tie |
| `Ordering.SortedUnique` | Inc/sort/heap_sort.h:46-48 | under a strict total order there is only one sorted arrangement |
| `Ordering.StableSortUnique` | Inc/sort/bubble_sort.h:46-48 | under a strict weak order there is only one stable sorted arrangement |
| `PriorityQueue.Queue.Init` | Src/priority_queue.c:74-87 | accepts exactly non-zero sizes and starts empty |
| `PriorityQueue.Queue.GetHighestPriorityIndex` | Src/priority_queue.c:44-57 | the oldest of the items with the highest priority |
| `PriorityQueue.Queue.GetLowestPriorityIndex` | Src/priority_queue.c:59-72 | the oldest of the items with the lowest priority |
| `PriorityQueue.Queue.ShiftDown` | Src/priority_queue.c:110-121 | the loop of block and priority copies removes one item and keeps each priority with its own bytes |
| `PriorityQueue.Queue.Enqueue` | Src/priority_queue.c:94-132 | the list in insertion order, its acceptance and its eviction of the oldest lowest item; nothing behind the slots changes |
| `PriorityQueue.Queue.Dequeue` | Src/priority_queue.c:134-158 | delivers the bytes of the oldest highest item and removes it; an empty queue changes nothing |
| `PrioritySpec.HeldIsTop` | Src/priority_queue.c:94-132 | after any run of enqueues the priorities held are the `capacity` largest offered, with multiplicity |
| `PrioritySpec.HeldSize` | Src/priority_queue.c:94-132 | after n enqueues from empty the queue holds the smaller of n and `capacity` items |
| `PrioritySpec.RefusedIff` | Src/priority_queue.c:94-109 | an item is refused exactly when the queue is full and every item held has at least its priority; the queue then stays as it was |
| `PrioritySpec.FullLosesLower` | Src/priority_queue.c:107-129 | an item accepted into a full queue displaces one of strictly lower priority, the oldest of the lowest |
| `PrioritySpec.HeldDominates` | Src/priority_queue.c:103-129 | every rejected or evicted priority is at most every one held, and nothing is lost while there is room |
| `PrioritySpec.EnqueueConserves` | Src/priority_queue.c:94-132 | the items offered are exactly those held and those lost, as multisets |
| `PrioritySpec.HeldInArrivalOrder` | Src/priority_queue.c:94-132 | whatever was evicted, the items held are in the order in which they were offered |
| `PrioritySpec.FillKeepsAll` | Src/priority_queue.c:94-105 | up to `capacity` items are all held, in order |
| `PrioritySpec.DrainIsStableSort` | Src/priority_queue.c:134-158 | draining returns the stable sort by descending priority |
| `PrioritySpec.StableSortIsDrain` | Src/priority_queue.c:134-158 | any stable descending sort of the items is what draining returns |
| `PriorityRuns.EachPriorityIsFifo` | Src/priority_queue.c:94-158 | over every run that mixes enqueues and dequeues, within each priority what was held and entered is, in order, what left (delivered or evicted) followed by what is still held |
| `PriorityRuns.RunConserves` | Src/priority_queue.c:94-158 | over every such run no item is duplicated and none disappears |
| `PriorityRuns.RunKeepsBound` | Src/priority_queue.c:94-132 | over every such run the queue never holds more than `capacity` items |
| `RingQueue.NextIsSlot` | Src/queue.c:74-75 | the 32-bit sum in the index step never wraps, for every capacity a uint32 can hold |
| `RingQueue.Queue.Init` | Src/queue.c:39-52 | accepts exactly non-zero sizes and starts empty |
| `RingQueue.Queue.Enqueue` | Src/queue.c:64-81 | appends to the sequence unless full; resident elements are never overwritten and rear stays (front + size - 1) mod capacity |
| `RingQueue.Queue.Dequeue` | Src/queue.c:83-99 | delivers and removes the oldest element; an empty queue changes nothing |
| `RingQueue.Queue.Front` | Src/queue.c:101-115 | delivers the oldest element and keeps the queue |
| `RingQueue.Queue.Rear` | Src/queue.c:117-131 | delivers the newest element and keeps the queue |
| `RingQueue.FirstInFirstOut` | Src/queue.c:64-99 | over every run of calls, what was held and accepted is what was delivered followed by what is still held, and never more than `capacity` |
| `FlatMap.Map.Init` | Src/map.c:54-68 | accepts exactly non-zero sizes, negative ones included, stores them, and starts empty for positive ones |
| `FlatMap.Map.GetIndex` | Src/map.c:41-52 | the search loop returns the position of the key, or -1 when it is absent |
| `FlatMap.Map.Insert` | Src/map.c:70-100 | replaces the value of a present key, appends a new one, fails only for a new key in a full map; keys stay distinct |
| `FlatMap.Map.GetValue` | Src/map.c:102-117 | succeeds exactly for a bound key and delivers the finite map's value |
| `FlatMap.InsertIsUpdate` | Src/map.c:70-100 | on the finite map an insert updates one binding, or none for a new key in a full map |
| `FlatMap.RunKeepsFirstKeys` | Src/map.c:70-100 | after any run of inserts the keys are the first `max_map_size` different ones, each once, in order |
| `FlatMap.RunKeepsLastValue` | Src/map.c:70-117 | and each is bound to the value inserted last |
| `Base64.GuardIsExact` | Src/base64.c:46-50 | the wrapping 64-bit guard rejects exactly the lengths whose encoding does not fit a size_t |
| `Base64.QuadsAreEncoding` | Src/base64.c:57-102 | three bytes at a time with padding is the encoding of section 4 of RFC 4648 on the bit string |
| `Base64Examples.EncodedConcat` | Src/base64.c:57-78 | whole groups of three bytes are encoded on their own |
| `Base64Examples.ShortTexts` | Src/base64.c:80-102 | "f", "fo" and "foo" become "Zg==", "Zm8=" and "Zm9v", written as ASCII codes |
| `Base64Examples.AlphabetInOrder` | Src/base64.c:24-42 | 48 bytes whose encoding is A to Z, a to z, 0 to 9, + and /, written as ASCII codes |
| `Base64.WrittenIsLargest` | Src/base64.c:57-102 | the characters written before the NUL are the whole encoding, or the most whole groups that fit |
| `Base64.StaysInsideIff` | Src/base64.c:46-102 | a call writes nothing at or behind `max_result_length` exactly when its text is shorter than that, or it is rejected and the length is no multiple of four or the guard stops it |
| `Base64.NulOutside` | Src/base64.c:66-102 | three concrete calls, one accepted and two rejected, that write the NUL at index `max_result_length` |
| `Base64.Encode` | Src/base64.c:21-106 | succeeds exactly when 4 * ceil(n / 3) fits; then the result is the RFC 4648 text and a NUL, else the groups that fit and a NUL; no other byte of the result array changes |
| `Base64Decoding.Decode` | Src/base64.c:108-172 | the exact acceptance condition, the exact bytes stored in every case, and nothing at or behind `max_out_len` changed |
| `Base64Decoding.LengthInModulus` | Src/base64.c:128-134 | the wrapping 64-bit length of the whole groups is right for every text length a size_t can hold |
| `Base64Decoding.TripleOfQuad` | Src/base64.c:144-153 | four digits give back the three bytes they encode |
| `Base64Decoding.RoundTrip` | Src/base64.c:128-168 | decoding undoes encoding for every byte string, with none, some or all of the padding present |
| `Base64Decoding.EncodingsAccepted` | Src/base64.c:128-168 | an encoding decodes successfully exactly when it stands for at least three bytes and they fit |
| `Base64Canonical.EncodesBackIff` | Src/base64.c:128-168 | encoding undoes decoding exactly for canonical texts: alphabet characters, right padding, zero padding bits |
| `Base64Normal.EncodesToNormal` | Src/base64.c:128-168 | what every text decodes to: the bytes whose encoding is the text with each character replaced by the one it counts as, the unused bits of the last one cleared and the padding completed |
| `Base64Normal.DecodesLikePlain` | Src/base64.c:111-127 | a text decodes, is accepted and is stored like the text with `-` and `.` replaced by `+`, `,` and `_` by `/`, and every other character outside the alphabet by `A`, `=` left alone |
| `Base64Normal.DecodedLength` | Src/base64.c:128-168 | the number of bytes, from the length of the text and the `=` at its end |
| `Base64Normal.AcceptsIff` | Src/base64.c:136-163 | a call succeeds exactly when the text decodes to at least three bytes and they fit |
| `Base64Normal.StoredIs` | Src/base64.c:136-168 | an accepted call stores all bytes, a rejected one none, except when just the second byte of the last group has no room |
| `Base64Canonical.DecodedIndependentIff` | Src/base64.c:133-157 | the decoding depends on the byte behind the text exactly when one character is left over |
| `Base64Canonical.StoredIndependentIff` | Src/base64.c:133-167 | what a call stores depends on it exactly when, besides, there is a whole group and everything fits; whether the call succeeds never does |
| `Base64Canonical.FollowingByteShows` | Src/base64.c:156-158 | a concrete text that decodes differently for two following bytes |
| `Json.StartString` | Src/json.c:41-52 | writes the opening brace exactly when two bytes are available |
| `Json.PutText` | Src/json.c:62-80 | `strcpy` at the end of a text appends to it and leaves what lies behind alone |
| `Json.AddData` | Src/json.c:54-89 | the exact acceptance condition, the exact text after an accepted and after a rejected call, nothing behind the NUL changed |
| `Json.AddedAfter` | Src/json.c:54-89 | for any text, built by these calls or not: a comma goes between a closing quote and the pair, and a pair is accepted exactly when the whole new text and its NUL fit |
| `Json.AddedInsideIff` | Src/json.c:62-71 | a call on a text that fits leaves text and NUL inside `buffer_size` exactly when the text does not both end in a quote and fill the buffer |
| `Json.EndString` | Src/json.c:91-103 | appends the closing brace exactly when it and a NUL fit |
| `Json.BuiltIsJoined` | Src/json.c:41-89 | after any run of accepted and rejected calls the text is the brace, the accepted pairs joined by commas, and a dangling comma exactly when the last call was rejected after an accepted one |
| `Json.LastFitsIff` | Src/json.c:62-71 | after any run of accepted and rejected calls, the next pair is accepted exactly when the accepted pairs and it, joined, leave room for the brace and the NUL |
| `Json.BuiltInsideIff` | Src/json.c:54-89 | over a whole run text and NUL stay inside `buffer_size` exactly unless a comma dangles behind accepted pairs that fill the buffer, and never exceed it by more than one byte |
| `Json.CommaOutside` | Src/json.c:62-71 | a concrete run of two pairs in nine bytes whose NUL lands at index nine |
| `Json.AllTakenIff` | Src/json.c:54-89 | every pair of a run is accepted exactly when the joined text with its brace and NUL fits |
| `Json.AllTakenText` | Src/json.c:41-103 | when all were accepted the text is '{' + joined pairs, and ending it adds '}' exactly when that fits |
| `JsonFind.FindByKey` | Src/json.c:105-159 | the three loops return the search result and store exactly the copied characters and, on success, a NUL |
| `JsonFind.SearchKey` | Src/json.c:110-128 | the first occurrence of the key, accepted exactly when a quote follows it |
| `JsonFind.CopyValue` | Src/json.c:140-155 | copies up to the closing quote, and succeeds exactly when that quote and a NUL fit |
| `JsonTheory.EveryTextHasPieces` | Src/json.c:105-159 | every text is quote-free pieces with quotes between them |
| `JsonTheory.FindIsPieceFound` | Src/json.c:105-159 | for every text and every key without a quote, the empty key included: the first piece that contains the key must end with its first occurrence, and the next but one is the value |
| `JsonTheory.FindsBetweenQuotes` | Src/json.c:130-155 | for every text and key, quotes in the key or not: behind the key's first occurrence, its quote and the next quote, what is copied and what is found |
| `JsonTheory.OpenKey` | Src/json.c:117-144 | nothing is found or stored when the first occurrence is followed by no quote, or by no second one |
| `JsonTheory.AbsentKey` | Src/json.c:115-128 | nor when the key does not occur |
| `JsonRoundTrip.TextIsGlued` | Src/json.c:66-82 | the pieces of a built text are its keys, values, colons and commas |
| `JsonTheory.AfterKeyAt` | Src/json.c:117-128 | the search skips every earlier piece, quotes in it or not, and stops behind the piece that is the key |
| `JsonRoundTrip.FindsUpToQuote` | Src/json.c:105-159 | for any keys, values and following bytes: a quote-free key that nothing before it contains finds its value up to the value's first quote, if that fits |
| `JsonRoundTrip.FindsOwnValue` | Src/json.c:41-159 | so the value itself comes back exactly when it fits and holds no quote |
| `JsonRoundTrip.FindsOwnValueIff` | Src/json.c:105-159 | for every pair: its value is found exactly when it fits, the first piece that contains the key ends with its first occurrence, and the next piece but one reads like the value |
| `JsonRoundTrip.FindsDistinctValueIff` | Src/json.c:105-159 | a value that occurs nowhere else is found exactly when it fits and no earlier piece contains its key |
| `JsonRoundTrip.BuildThenFind` | Src/json.c:41-159 | build with a buffer that accepts every pair, end, search the whole buffer with any bytes behind the text: the value comes back up to its first quote |
| `JsonRoundTrip.EmptyKeyNotFound` | Src/json.c:117-128 | an empty key is never found in a built text |
| `JsonRoundTrip.SuffixKeyFindsOther` | Src/json.c:117-128 | a concrete text where the key ends an earlier key and the earlier value is returned |
| `JsonRoundTrip.PrefixKeyFindsNothing` | Src/json.c:117-128 | a concrete text where the key begins an earlier key and nothing is found |
| `ParseUint.QuickPow10` | Src/utils.c:103-118 | the table holds the powers of ten below 10^10; for larger exponents the caller's result stays as it was |
| `ParseUint.SumDigits` | Src/utils.c:52-66 | the power-weighted 32-bit sum equals the number of the leading digits in their places, with no wrap, and 11 or more characters fail |
| `ParseUint.StringToUint32` | Src/utils.c:39-89 | succeeds exactly for at most 10 characters, all digits, with value at most 2^32 - 1, and stores that value; what a rejected call leaves behind is stated too |
| `ParseUint.LengthRules` | Src/utils.c:47-66 | two concrete inputs: eleven characters with leading zeros are rejected, no characters are read as 0 |
| `ParseUint.NumberOfDecimal` | Src/utils.c:39-89 | reading the decimal digits of a number gives the number |
| `ParseUint.DecimalAccepted` | Src/utils.c:39-89 | a number's decimal text is accepted exactly when the number fits 32 bits |
| `ParseUint.LeadingZerosAccepted` | Src/utils.c:39-89 | with any zeros in front of a number's decimal text it is accepted exactly when it has at most ten characters and the number fits 32 bits, and denotes that number |
| `ParseUint.DigitsAreDecimal` | Src/utils.c:39-89 | every non-empty text of digits is zeros and a decimal text |
| `ParseUint.OtherCharacterRejected` | Src/utils.c:52-85 | a text with any character outside '0' to '9' is rejected |
| `ParseUint.RemnantIs` | Src/utils.c:52-85 | what a rejected call leaves: the number of the digits before the first other character with zeros from there on, a tenth character ignored, and zero for longer texts |

## Left out

- The literal CRC tables and the other CRC variant files: finite data with the same wrapper shape; the tables are taken as the table calculator's output.
- `Src/scheduler.c`: first-free-slot insertion and calls through function pointers, with only easy properties.
- `BitManipulation_bitSet`, `setBit`, `clearBit`, `toggleBit` and the fixed-width serializers of `Src/utils.c`: single expressions.
- NULL checks, pointer casts, aliasing and the C memory model: expressed as preconditions on distinct arrays.
- `memcpy`, `memcmp`, `strcpy`, `strlen`, `strcmp`, `strncmp`: modelled by their meaning on blocks and texts.
- Index-times-size products that overflow their 32-bit type: excluded by the preconditions of the containers and the sorts.
- FlatMap.Map.Init: a map with a negative size is accepted, as in the code, but the calls on it are not modelled.
- PriorityQueue.Queue.Enqueue: priorities are unbounded numbers, because the code only compares them.
- JsonFind.FindByKey: does not model buffers of 2^32 - 1 or more characters, where the 32-bit index would wrap; the key holds no NUL.
- JsonFind.SearchKey: the same bound.
- Json.AddData: the allocation holds the comma and its NUL, because a store behind it has no meaning in C; Json.AddedInsideIff says when that takes more than `buffer_size` bytes.
- JsonTheory.FindIsPieceFound: keys that contain a quote are left out, because they span pieces; JsonTheory.FindsBetweenQuotes covers them by position.
- JsonRoundTrip.FindsOwnValueIff: texts with quotes in keys or values are left out, because a quote there shifts the pieces; JsonRoundTrip.FindsUpToQuote covers them for a key that nothing before it contains.
- JsonRoundTrip.FindsDistinctValueIff: the same texts are left out.
- HeapSort.ExtractAll: the smallest int32_t count is excluded, because subtracting one from it has no defined result; the same holds for BubbleSort.Sort.
- Comparators with side effects or answers that depend on anything but the two elements' bytes.
