# parity-common: verified models of its core

This project models four parts of the repository and proves what they are for, for all inputs and all runs.

* **Fixed-width integers (`uint`).** Numbers are little-endian sequences of 64-bit words, for any number of words
  `n`; `Limbs.Val` reads them as natural numbers. Word arithmetic wraps exactly where the source's does. The loops
  are the source's loops, over arrays where the source updates in place, and each is proved against the
  mathematical function: addition, multiplication, Knuth's Algorithm D (The Art of Computer Programming, volume 2,
  section 4.3.1), square root, powers, shifts, and decimal text.
* **RLP and the trie root (`rlp`, `triehash`).** The encoder is a class over a byte buffer and a stack of open
  lists; the specification is the recursive encoding of Appendix B of the Ethereum Yellow Paper. The decoder is a
  class with the source's offset and count caches. The trie root is proved against the structural composition of
  Appendix D, with the hash left uninterpreted.
* **Transaction pool (`transaction-pool`).** `PoolModel` and `PoolOps` describe the pool as a state machine over its
  redundant views; `PoolImpl.Pool` and `PoolTransactions.Transactions` are the classes whose methods carry it out,
  and every method is proved to do what the state machine does. `PoolDecides` says what the pluggable parts decide,
  `PoolLimits` and `PoolStays` what every run keeps. `PoolPending` is the iterator over pending
  transactions. Scoring, replacement and readiness are arbitrary functions; readiness may depend on everything it
  was asked before.
* **Prefix ranges (`kvdb`, `kvdb-memorydb`).** Turning "starts with" into a lexicographic range, and batches of writes.

The files are named after these parts: `Uint*`, `Rlp*`, `Trie*` (with `Lexico`), `Pool*`, `KvStore`.

## Where the code differs from what it says

Each of these has an exact condition for all inputs, and an input where it shows.

* `pow` means to clear the low bit of an odd exponent and clears the topmost bit of the number
  (uint/src/uint.rs:1022-1024). `PanickingPow.PowOrPanic` says what it computes. It is right for every exponent that is
  even or has its top bit clear, and for the bases zero and one; otherwise it should panic, and does so exactly when the
  power without the top bit overflows too (`PanickingPow.PowMeetsDocumentation`, `PowCounterexample`).
  `overflowing_pow` is right for all inputs.
* `overflowing_neg` returns the complement (uint/src/uint.rs:1162-1168), which is the negation for zero alone
  (`Neg.NegMeetsName`, `NegCounterexample`). `checked_neg` drops that value, so it is right.
* `insert_size` narrows lengths to 32 bits (rlp/src/stream.rs:356). The output is the Yellow Paper's encoding if and
  only if every payload is shorter than 2^32 bytes (`Encoding.WrittenIsEncoding`, `LongStringCounterexample`).
* `at_with_offset` walks on from a cached offset to the end of the slice and not of the list's payload
  (rlp/src/rlpin.rs:217 against 314). The cache is invisible if and only if the bytes behind the payload stop the walk
  as its end does (`Reader.CacheInvisible`, `CacheCounterexample`), which holds for every slice that is exactly one
  item, and everything `at` hands out is one (`Reader.AtFindsItem`). `item_count` of a fresh reader counts on in the
  same way; `Reader.FreshCountExact` says when that is the number of items of the payload, `CountCounterexample`
  when it is not.
* A branch of the trie writes an absent value and an empty one alike. Two collections have the same root if and only if
  they hold the same pairs, but for keys under which each holds nothing or the empty value while two of its other keys
  go on behind that key with different nibbles (`TrieMerkle.RootDeterminesContents`, `EmptyValueCounterexample`). So
  without empty values the root stands for the collection (`TrieMerkle.NonEmptyDetermined`), and the root of a list
  always stands for the list (`TrieOrdered.ListRoots`).
* `Transactions::cull` says it restores the order of what it hands back (transaction-pool/src/transactions.rs:200); the
  result is in order already and is reversed by it, so the order is right for at most one transaction
  (`PoolList.CullOrder`, `CullOrderCounterexample`).
* The sender limit is compared for equality (transaction-pool/src/transactions.rs:86), so it holds after a transaction
  that does not ignore it if and only if it held before; a list that has once been taken past it grows on
  (`PoolList.LimitKeptIfKept`, `GrowsPastLimit`, `PastLimitCounterexample`).
* When a transaction is to be evicted, both sides of the comparison are given the new sender's transactions
  (transaction-pool/src/pool.rs:289-294), where each should come with those of its own sender
  (transaction-pool/src/replace.rs:17-18). Every rule judges as documented if and only if the worst transaction is the
  new one's own sender's (`PoolOps.JudgedAsDocumented`, `GivenOtherList`).

## Model

| member | source | states |
|---|---|---|
| AddSub.OverflowingBinop | uint/src/uint.rs:217-261 | adding or subtracting word by word gives the exact sum or difference modulo 2^(64n), the flag being the final carry |
| AddSub.OverflowingAdd | uint/src/uint.rs:1067-1075 | the sum modulo 2^(64n), with the flag set exactly on overflow |
| AddSub.OverflowingSub | uint/src/uint.rs:1095-1103 | the difference modulo 2^(64n), with the flag set exactly when it would be negative |
| AddSub.BinopSlice | uint/src/uint.rs:1231-1239 | the window of the array changes by exactly the operand, up to the returned carry, and nothing outside it changes |
| Mul.OverflowingMulU64 | uint/src/uint.rs:1267-1277 | words and carry together are the exact product by one word |
| Mul.FullMulReg | uint/src/uint.rs:265-318 | the exact double-width product, with and without skipping zero words; the carry between columns is at most one and none escapes a row |
| Mul.OverflowingMul | uint/src/uint.rs:322-347 | the product modulo 2^(64n), with the flag set exactly on overflow |
| Shift.Bits | uint/src/uint.rs:699-705 | the least number of bits that can represent the number |
| Shift.Cmp | uint/src/uint.rs:1634-1636 | comparing words from the top compares the numbers |
| Shift.Shl | uint/src/uint.rs:1560-1578 | multiplication by a power of two modulo 2^(64n), for any shift |
| Shift.Shr | uint/src/uint.rs:1597-1617 | division by a power of two, for any shift |
| Shift.FullShl | uint/src/uint.rs:815-823 | one more word holds everything shifted out at the top |
| Shift.FullShr | uint/src/uint.rs:825-838 | undoes it: the quotient by the power of two |
| DivWord.QuotientDigit | uint/src/uint.rs:1187-1213 | one half-word digit is exact after at most two corrections |
| DivWord.DivModWord | uint/src/uint.rs:1179-1218 | two words divided by one: exact quotient and remainder for every divisor above the high word |
| Div.DivModSmall | uint/src/uint.rs:848-856 | division by a single word is exact |
| Div.EstimateDigit | uint/src/uint.rs:878-909 | step D3: the estimate is the quotient of the top three words by the top two, or the largest word, after at most two corrections |
| Div.DigitOrOneMore | uint/src/uint.rs:878-909 | the estimate is the true quotient digit or one more (Theorem B and exercise 20 of section 4.3.1) |
| Div.ReduceDigit | uint/src/uint.rs:874-933 | steps D3 to D6: one add-back suffices and the window keeps exactly its own remainder |
| Div.DivModKnuth | uint/src/uint.rs:859-939 | the whole of Algorithm D divides exactly |
| Div.DivMod | uint/src/uint.rs:952-976 | self = q * other + r with r below other, on all three paths |
| Div.DivModMeaning | uint/src/uint.rs:950-976 | that relation fixes quotient and remainder |
| Roots.NewtonStep | uint/src/uint.rs:988-997 | a Newton step never falls below the floor root, and stops decreasing only there |
| Roots.IntegerSqrt | uint/src/uint.rs:979-998 | terminates with the greatest number whose square is not above self |
| Roots.OverflowingPow | uint/src/uint.rs:1032-1055 | the power modulo 2^(64n), with the flag set exactly when the power does not fit |
| Roots.Needed | uint/src/uint.rs:1043-1051 | every square taken is needed, so an overflow in it is an overflow of the power |
| PanickingPow.PowOrPanic | uint/src/uint.rs:1006-1029 | the power to the exponent the loop really uses, a panic exactly when that overflows |
| PanickingPow.PowMeetsDocumentation | uint/src/uint.rs:1000-1029 | right for every harmless exponent; for any other it should panic, and exactly when it does |
| PanickingPow.PowCounterexample | uint/src/uint.rs:1022-1025 | an input with a wrong result |
| Neg.Not | uint/src/uint.rs:1547-1554 | the complement is 2^(64n) - 1 minus the number |
| Neg.OverflowingNeg | uint/src/uint.rs:1162-1168 | the complement with a flag, or zero without one |
| Neg.NegMeetsName | uint/src/uint.rs:1161-1168 | the value is the negation for zero alone |
| Neg.NegCounterexample | uint/src/uint.rs:1161-1168 | an input whose answer is not the negation |
| Neg.CheckedNeg | uint/src/uint.rs:1171-1176 | an answer exactly for zero |
| Decimal.FromDecStr | uint/src/uint.rs:605-622 | which of value, bad character or overflow is answered for every text |
| Decimal.ParseOutcome | uint/src/uint.rs:605-622 | success exactly on digits only whose value is below 2^(64n) |
| Decimal.DecValExample | uint/src/uint.rs:605-622 | the digits are those of ASCII, and the first one counts most |
| Decimal.Display | uint/src/uint.rs:1652-1677 | the digits denote the number, without leading zeros, and the digit buffer is never too short |
| Decimal.WritesUnique | uint/src/uint.rs:1652-1677 | there is one way to write a number |
| Decimal.PrintThenParse | uint/src/uint.rs:605-622 | parsing what was printed gives back the same words |
| Decimal.ParseThenPrint | uint/src/uint.rs:1652-1677 | printing what was parsed gives the text without its leading zeros |
| Encoding.FromToBE | rlp/src/impls.rs:162-166 | big-endian bytes are read back as the number and have no leading zero |
| Encoding.ToFromBE | rlp/src/impls.rs:171-193 | bytes without a leading zero are the shortest for their value |
| Encoding.WrittenIsEncoding | rlp/src/stream.rs:355-422 | what the encoder writes is the Yellow Paper's encoding if and only if all payloads fit 32 bits |
| Encoding.LongStringCounterexample | rlp/src/stream.rs:355-365 | a string of 2^32 bytes is written with no length |
| RoundTrip.EncodingExamples | rlp/src/stream.rs:355-422 | the prefix bytes of short and long strings and lists, on both sides of 55 bytes |
| Stream.RlpStream.InsertSize | rlp/src/stream.rs:355-365 | the shortest length bytes are rotated to their place, everything else keeping its order |
| Stream.RlpStream.InsertListPayload | rlp/src/stream.rs:368-379 | the list prefix replaces the reserved byte |
| Stream.RlpStream.EncodeIter | rlp/src/stream.rs:386-422 | one value is appended in its encoded form |
| Stream.RlpStream.NoteAppended | rlp/src/stream.rs:298-322 | items are counted and every list they complete is closed, one inside the other |
| Stream.RlpStream.AppendRaw | rlp/src/stream.rs:91-100 | raw bytes are appended and counted as that many items; if they are that many items, it is as if these had been appended one by one |
| Stream.RawIsItems | rlp/src/stream.rs:91-100 | appending k encoded items as raw bytes, counted as k, is appending them one by one, closing every list they complete |
| Stream.RlpStream.AppendIter | rlp/src/stream.rs:132-142 | a value from an iterator is one item |
| Stream.RlpStream.AppendEmptyData | rlp/src/stream.rs:79-88 | empty data is one item |
| Stream.RlpStream.BeginList | rlp/src/stream.rs:177-198 | an announced list opens, or is complete at once when empty |
| Stream.RlpStream.BeginUnboundedList | rlp/src/stream.rs:201-210 | a list of unknown length opens |
| Stream.RlpStream.FinalizeUnboundedList | rlp/src/stream.rs:329-338 | it closes and counts as one item |
| Stream.RlpStream.Append | rlp/src/stream.rs:111-121 | a value of any nesting is appended as one item and counted once |
| Stream.RlpStream.RlpAppend | rlp/src/stream.rs:111-121 | the values of a list, announced or not, end as the recursive encoding of the list |
| Stream.RlpStream.Clear | rlp/src/stream.rs:256-262 | back to the bytes it started behind |
| Stream.CloseWhole | rlp/src/stream.rs:308-320 | closing a list in place gives its recursive encoding |
| Stream.AppendAtTop | rlp/src/stream.rs:111-121 | old bytes followed by the Yellow Paper encoding, exactly when payloads fit 32 bits |
| Stream.RunPreorder | rlp/src/stream.rs:177-338 | calls in pre-order, from any state, do not panic and append the tree as one item |
| Reader.DecodeUsizeLoop | rlp/src/impls.rs:20-35 | the shifted sum is the big-endian value, without overflow, or the error for its form |
| Reader.ItemInfo | rlp/src/rlpin.rs:388-394 | a readable item takes at least one byte and lies inside the slice |
| Reader.WhyUnreadable | rlp/src/rlpin.rs:53-96 | which error a slice gives that does not begin with an item |
| Reader.ItemInfoExtends | rlp/src/rlpin.rs:81-96 | bytes behind an item do not change how it is read |
| Reader.ConsumeItemsLoop | rlp/src/rlpin.rs:318-328 | walking n items from the front |
| Reader.ConsumeItemsAdd | rlp/src/rlpin.rs:318-328 | walking m items and then n is walking m + n |
| Reader.WalkEnds | rlp/src/rlpin.rs:318-337 | the walk fails exactly behind the last complete item |
| Reader.Rlp.AtWithOffset | rlp/src/rlpin.rs:204-235 | with the cache it keeps, the answer is the uncached one on transparent slices |
| Reader.Rlp.CountByIterating | rlp/src/rlpin.rs:364-369 | iteration ends; it has met one item for every successful look-up in turn, which on transparent slices is every item of the payload |
| Reader.Rlp.ItemCount | rlp/src/rlpin.rs:165-178 | that count, or the one remembered; on transparent slices the number of items of the payload |
| Reader.UncachedFinds | rlp/src/rlpin.rs:204-235 | exactly the indexes below the item count are found |
| Reader.AtStepExact | rlp/src/rlpin.rs:207-235 | the cached offset stays the header plus the first items |
| Reader.ExactIsTransparent | rlp/src/rlpin.rs:204-235 | a slice that is exactly one item is transparent |
| Reader.CacheInvisible | rlp/src/rlpin.rs:204-235 | any sequence of look-ups answers as without a cache, if and only if the slice is transparent |
| Reader.CacheCounterexample | rlp/src/rlpin.rs:213-220 | a slice with trailing bytes where the second look-up answers differently |
| Reader.FreshCountExact | rlp/src/rlpin.rs:165-178 | exactly when a fresh count is the number of items of the payload |
| Reader.CountCounterexample | rlp/src/rlpin.rs:165-178 | a list of one item that is counted as two |
| Reader.ItemCut | rlp/src/rlpin.rs:227-234 | cutting a slice behind its first item leaves exactly that item |
| Reader.AtFindsItem | rlp/src/rlpin.rs:204-235 | from any slice and with any cache, what is handed out is exactly one item, and looking inside it is transparent |
| RoundTrip.DecodeEncoded | rlp/src/rlpin.rs:396-432 | decoding an encoded byte string gives it back |
| RoundTrip.EncodeDecoded | rlp/src/rlpin.rs:396-432 | a slice of exactly one item that decodes as a byte string is its encoding |
| RoundTrip.ReencodeFound | rlp/src/rlpin.rs:204-235 | a byte string decoded from what `at` hands out is written as that very slice again, exactly when it is shorter than 2^32 bytes |
| RoundTrip.ReadHeader | rlp/src/rlpin.rs:53-96 | a written prefix is read back as the lengths it announces |
| RoundTrip.ItemIs | rlp/src/rlpin.rs:81-96 | exactly these slices are one item: a byte below 0x80, and a payload behind the one prefix for its length |
| RoundTrip.DataDecodes | rlp/src/rlpin.rs:396-432 | of the items that are data, exactly a byte below 0x80 with a prefix of its own is refused |
| RoundTrip.WrongKind | rlp/src/rlpin.rs:204-210 | a list is missed exactly where there is none, and data exactly where there is a list |
| RoundTrip.ReadEncodedList | rlp/src/rlpin.rs:165-235 | item count, every item with its offset, and the error behind the last one |
| RoundTrip.DecodeEncodedTree | rlp/src/rlpin.rs:364-432 | decoding the encoding of any tree gives the tree |
| RoundTrip.TreeCollects | rlp/src/rlpin.rs:283-288 | decoding a list as a tree is decoding the items found under its indexes, all of them |
| RoundTrip.ReadTree | rlp/src/rlpin.rs:276-288 | decoding through readers with their caches gives that tree, or its first error, on transparent slices |
| RoundTrip.EncInjective | rlp/src/rlpin.rs:364-432 | no two trees share an encoding |
| Integers.ByteCount | rlp/src/impls.rs:162-166 | the leading empty bytes counted from the leading zero bits are all of them |
| Integers.UintBytes | rlp/src/impls.rs:159-169 | an integer is written in its shortest big-endian form |
| Integers.DecodeBytes | rlp/src/impls.rs:148-193 | the value or the error for every byte string; the sum never leaves the type |
| Integers.UintReads | rlp/src/impls.rs:171-193 | a byte string is read as n exactly when it is how n is written and n fits; which error it gives otherwise |
| Integers.DecodeWritten | rlp/src/impls.rs:159-193 | what one integer type writes another reads back exactly when it fits |
| Integers.WrittenOnce | rlp/src/impls.rs:171-193 | an item read as n is what n is written as |
| TrieNode.HexPrefixReadsBack | triehash/src/lib.rs:156-168 | path and leaf flag can be read back from the hex-prefix encoding |
| TrieNode.HexPrefixBytes | triehash/src/lib.rs:156-168 | every byte of the encoding, as Appendix C has them: 2 for a leaf, 1 for an odd length, then the nibbles in pairs |
| TrieNode.HexPrefixInjective | triehash/src/lib.rs:156-168 | no two of them share an encoding |
| TrieNode.ComposesUnique | triehash/src/lib.rs:170-244 | a set of keys has exactly one structural composition |
| TrieNode.LookupFinds | triehash/src/lib.rs:185-244 | following a key's nibbles reaches its value, and an absent key reaches nothing |
| TrieBuild.SharedPrefixLen | triehash/src/lib.rs:36-38 | the longest common beginning of two keys |
| TrieBuild.SharedIsLongest | triehash/src/lib.rs:197-203 | the fold over the first key finds the longest prefix shared by the whole set |
| TrieBuild.RunIsBelow | triehash/src/lib.rs:224-228 | each run of equal next nibbles is the set of all keys with that nibble |
| TrieBuild.RunShorter | triehash/src/lib.rs:205-237 | the recursion leaves fewer nibbles |
| TrieBuild.BuildComposes | triehash/src/lib.rs:170-244 | the recursion builds the structural composition of Appendix D |
| TrieHash.Hash256Rlp | triehash/src/lib.rs:170-244 | appends the RLP of that node to any stream, as one item |
| TrieHash.EmitBranch | triehash/src/lib.rs:215-243 | sixteen references and the value, for advancing runs |
| TrieHash.Hash256Aux | triehash/src/lib.rs:246-259 | a node below 32 bytes is inlined, any other replaced by its hash |
| TrieHash.RefInlines | triehash/src/lib.rs:254-258 | inlined below 32 bytes, hashed from 32 bytes on |
| TrieHash.NodeLayout | triehash/src/lib.rs:170-244 | what stands where in the item of each kind of node, leaves and extensions told apart by the first byte |
| TrieRoot.CollectLists | triehash/src/lib.rs:87-88 | sorting keeps one pair per key, the last one |
| TrieRoot.LastPairWins | triehash/src/lib.rs:87-88 | of all pairs with a key the last one counts |
| TrieNode.NibblesAt | triehash/src/lib.rs:94-97 | the high nibble of each byte comes first |
| TrieRoot.FillNibbles | triehash/src/lib.rs:90-99 | one buffer holds the nibbles of all keys between consecutive ends |
| TrieRoot.RootOf | triehash/src/lib.rs:79-107 | the hash of the encoding of the composition of the collection |
| TrieRoot.RootUnique | triehash/src/lib.rs:79-107 | order and repetition of the input do not matter |
| TrieRoot.EmptyRoot | triehash/src/lib.rs:176-182 | the root of an empty collection |
| TrieRoot.OnePairRoot | triehash/src/lib.rs:188-195 | the root of any collection of one pair, as the hash of its bytes |
| TrieRoot.OnePairExample | triehash/src/lib.rs:188-195 | the bytes hashed for the value 1 under the key 0x41 |
| TrieErase.ErasureIsAlike | triehash/src/lib.rs:170-244 | two compositions differ in empty values of branches at most exactly when their collections differ in hidden keys at most |
| TrieMerkle.ErasedItem | triehash/src/lib.rs:238-243 | the item of a node does not show empty values of branches |
| TrieMerkle.NodeDetermined | triehash/src/lib.rs:170-259 | it shows all else, up to collisions of what was hashed inside |
| TrieMerkle.RootsIffErased | triehash/src/lib.rs:170-259 | two nodes have the same root hash exactly when they differ in empty values of branches at most |
| TrieMerkle.RootDeterminesContents | triehash/src/lib.rs:79-107 | exactly when two collections have the same root |
| TrieMerkle.NonEmptyDetermined | triehash/src/lib.rs:79-107 | without empty values, exactly when they are the same |
| TrieShort.ShortFitting | triehash/src/lib.rs:79-107 | entries short enough for a caller to check make all encodings fit |
| TrieShort.ShortRoots | triehash/src/lib.rs:79-107 | for such entries the roots are the same exactly when the collections look alike |
| TrieMerkle.EmptyValueCounterexample | triehash/src/lib.rs:238-243 | two collections that differ in an empty value share a root |
| TrieOrdered.IndexKeyInjective | triehash/src/lib.rs:52-60 | no two indexes share a key |
| TrieOrdered.IndexKeyExamples | triehash/src/lib.rs:52-60 | the keys of some indexes as bytes |
| TrieOrdered.OrderedTrieRoot | triehash/src/lib.rs:52-60 | the root of the values under their encoded indexes |
| TrieOrdered.ListDetermined | triehash/src/lib.rs:52-60 | that collection determines the list |
| TrieOrdered.KeysPrefixFree | triehash/src/lib.rs:52-60 | no index key goes on behind another |
| TrieOrdered.ListRoots | triehash/src/lib.rs:52-60 | two lists have the same root exactly when they are the same, empty values or not |
| KvStore.EndPrefix | kvdb/src/lib.rs:158-169 | the loop finds the end of the range, or that there is none |
| KvStore.RangeIsPrefix | kvdb/src/lib.rs:152-169 | a key starts with the prefix if and only if it lies in the range |
| KvStore.RemovePrefix | kvdb-memorydb/src/lib.rs:69-87 | deleting the keys of the range is filtering by the prefix |
| KvStore.InMemory.Write | kvdb-memorydb/src/lib.rs:55-91 | a batch applies its operations in order to plain maps |
| KvStore.LastOpWins | kvdb-memorydb/src/lib.rs:55-91 | of all operations of a batch that touch a key the last one decides what is stored under it, and none means no change |
| PoolList.BinarySearch | transaction-pool/src/transactions.rs:103-106 | the only place where a transaction is or belongs |
| PoolList.AddOrdered | transaction-pool/src/transactions.rs:102-145 | adding keeps a sender's list strictly ascending, one score each |
| PoolList.InsertKeepsOrder | transaction-pool/src/scoring.rs:74-98 | keeping both is in order exactly when the two are not equal |
| PoolList.AddMembers | transaction-pool/src/transactions.rs:102-145 | who is in the list afterwards |
| PoolList.BelongsOnce | transaction-pool/src/transactions.rs:103-106 | the index is the only one with all before it below the newcomer and the one there not below it |
| PoolList.AddBehind | transaction-pool/src/transactions.rs:79-96 | a newcomer above all others is refused exactly at the limit, unless it ignores it; otherwise it goes to the end and is scored there |
| PoolList.AddRejected | transaction-pool/src/transactions.rs:114-116 | RejectNew: nothing changes, and the answer names both |
| PoolList.AddReplacing | transaction-pool/src/transactions.rs:137-142 | ReplaceOld: the newcomer takes the place of exactly that one, and is scored there |
| PoolList.AddInserting | transaction-pool/src/transactions.rs:117-135 | InsertNew: the newcomer goes in before that one and is scored there; the last one goes exactly when the list was full |
| PoolList.AddWithinLimit | transaction-pool/src/transactions.rs:79-136 | a list does not outgrow the sender limit |
| PoolList.LimitKeptIfKept | transaction-pool/src/transactions.rs:85-86 | after a transaction that does not ignore the limit, a list respects it if and only if it did before |
| PoolList.GrowsPastLimit | transaction-pool/src/transactions.rs:85-94 | past the limit such a transaction enters at the end |
| PoolList.PastLimitCounterexample | transaction-pool/src/transactions.rs:85-94 | a list of three under a limit of one, two of them not ignoring it |
| PoolList.RemoveListed | transaction-pool/src/transactions.rs:147-161 | a listed transaction is found and nothing else leaves |
| PoolList.RemovedScores | transaction-pool/src/transactions.rs:147-161 | the list and the scores after removing the i-th transaction, for any scoring |
| PoolList.RemoveAbsent | transaction-pool/src/transactions.rs:147-151 | nothing that compares equal, nothing removed |
| PoolList.CullMembers | transaction-pool/src/transactions.rs:163-203 | culling parts the list into what stays and what is handed back |
| PoolList.CulledScores | transaction-pool/src/transactions.rs:179-202 | the list and the scores after culling, told how many have gone |
| PoolList.StalePrefixIs | transaction-pool/src/transactions.rs:169-177 | each of the front was found stale in order, and the one behind it was not |
| PoolList.CullOrder | transaction-pool/src/transactions.rs:200-202 | what is handed back is in order exactly when it is at most one |
| PoolList.CullOrderCounterexample | transaction-pool/src/transactions.rs:200-202 | two stale transactions come back the second one first |
| PoolList.RemoveLast | transaction-pool/src/transactions.rs:147-161 | removing the last one leaves the list in front of it |
| PoolModel.FrontierCommit | transaction-pool/src/pool.rs:227-270 | updating an ordered set keeps exactly one end per sender in it, with its current score |
| PoolModel.TakeOutInv | transaction-pool/src/pool.rs:325-340 | taking transactions out of one list keeps all views in agreement |
| PoolModel.FinalizeRemoveMem | transaction-pool/src/pool.rs:219-224 | the memory counter follows the index |
| PoolOps.LastIsWorst | transaction-pool/src/pool.rs:281 | the last entry of the worst set is its sender's last transaction; no sender's last one has a lower score, and of those with the same score none is newer |
| PoolOps.EvictsPooled | transaction-pool/src/pool.rs:276-322 | only that transaction is ever evicted |
| PoolDecides.JudgedBy | transaction-pool/src/pool.rs:296-309 | what comes of each answer of the rule on the worst transaction |
| PoolOps.JudgedAsDocumented | transaction-pool/src/pool.rs:287-296 | every rule judges as documented exactly when both transactions have the same sender |
| PoolOps.GivenOtherList | transaction-pool/src/pool.rs:289-294 | a pool where the old side is said to have nothing pooled |
| PoolOps.MakeRoomKeeps | transaction-pool/src/pool.rs:156-168 | the eviction loops end, bring nothing in, and make room unless told to accept both |
| PoolDecides.MakeRoomDecides | transaction-pool/src/pool.rs:156-168 | over the limit, RejectNew is an error and changes nothing, ReplaceOld takes the worst transaction out, InsertNew is neither |
| PoolDecides.MakeRoomEmpty | transaction-pool/src/pool.rs:281-286 | an empty pool over its limit refuses, whatever the rule |
| PoolDecides.AlwaysReplacing | transaction-pool/src/pool.rs:156-168 | a rule that always replaces fails exactly when even an empty pool would not have room |
| PoolOps.EnterInv | transaction-pool/src/pool.rs:171-206 | entering keeps all views in agreement and displaces at most one transaction of the same sender |
| PoolDecides.EnterDecides | transaction-pool/src/pool.rs:171-206 | what becomes of a newcomer that belongs at index i: error and contents follow from the limit and from `choose` on the i-th transaction |
| PoolDecides.EnterLists | transaction-pool/src/pool.rs:171-206 | its sender's list, scores included, is what adding to it gives, and no other list changes |
| PoolOps.ImportInv | transaction-pool/src/pool.rs:130-206 | import keeps all views in agreement, brings in the accepted transaction and nothing else, and while there is room displaces at most one transaction of that sender |
| PoolDecides.ImportDecides | transaction-pool/src/pool.rs:130-206 | with room, `choose` and the sender limit alone decide what is returned, what comes in and what goes |
| PoolDecides.ImportBoth | transaction-pool/src/pool.rs:130-206 | without room it is the same if the rule answers InsertNew on the worst transaction |
| PoolDecides.ImportJudged | transaction-pool/src/pool.rs:130-206 | without room, RejectNew leaves the pool as it is with `TooCheapToEnter`, ReplaceOld takes the worst transaction out for good, InsertNew evicts nothing |
| PoolDecides.ImportKnown | transaction-pool/src/pool.rs:133-135 | a known hash is an error and changes nothing |
| PoolOps.RemoveInv | transaction-pool/src/pool.rs:359-371 | exactly the transaction with that hash leaves all views |
| PoolDecides.DropLists | transaction-pool/src/pool.rs:325-340 | its sender's list, scores included, is what removing from it gives, and no other list changes |
| PoolOps.CullInv | transaction-pool/src/pool.rs:391-408 | culling keeps all views in agreement |
| PoolOps.UpdateScoresInv | transaction-pool/src/pool.rs:458-471 | rescoring keeps all views in agreement and the contents as they are |
| PoolDecides.UpdateScoresMoves | transaction-pool/src/pool.rs:458-471 | the sender's scores are what the scoring answers for the event, both ordered sets hold its first and last transaction under exactly these, and no other sender's list or entry changes |
| PoolOps.StepInv | transaction-pool/src/pool.rs:130-471 | every operation keeps all views in agreement |
| PoolDecides.StepIds | transaction-pool/src/pool.rs:137 | every newcomer with an unknown hash takes the next id, accepted or not, and nothing else changes the counter |
| PoolOps.Run | transaction-pool/src/pool.rs:100-471 | so does every run from an empty pool |
| PoolLimits.ImportTotals | transaction-pool/src/pool.rs:142-169 | count and memory limits hold if no replacement rule accepts both |
| PoolLimits.ImportPerSender | transaction-pool/src/transactions.rs:79-145 | the sender limit holds if the transaction does not ignore it |
| PoolLimits.RunLimits | transaction-pool/src/pool.rs:130-471 | every reachable pool keeps its limits, each under its own condition |
| PoolStays.MakeRoomFronts | transaction-pool/src/pool.rs:156-168 | evictions take the ends of lists, so every sender keeps a front of its list |
| PoolStays.NoMoreThanNeeded | transaction-pool/src/pool.rs:156-168 | nothing is evicted while there is room, and one eviction less would not have made room |
| PoolStays.StalledLeaves | transaction-pool/src/pool.rs:374-388 | one sender loses exactly its stale front, and no other list changes |
| PoolStays.CullLeavesFronts | transaction-pool/src/pool.rs:391-408 | exactly the stale fronts of the given senders leave, and the number handed back counts them; one log, sender after sender, has every question to the readiness check, each asked with all before it as history |
| PoolTransactions.Transactions.Add | transaction-pool/src/transactions.rs:102-145 | the class does what the specification of adding says, which `AddBehind` to `AddInserting` pin down |
| PoolTransactions.Transactions.PushCheapest | transaction-pool/src/transactions.rs:79-96 | the same for adding at the end |
| PoolTransactions.Transactions.Remove | transaction-pool/src/transactions.rs:147-161 | the same for removing |
| PoolTransactions.Transactions.CountStale | transaction-pool/src/transactions.rs:169-177 | the length of the stale front |
| PoolTransactions.Transactions.CutFront | transaction-pool/src/transactions.rs:183-202 | popping off the reversed lists drops the front and hands it back last one first |
| PoolTransactions.Transactions.Cull | transaction-pool/src/transactions.rs:163-203 | the same for culling |
| PoolTransactions.Transactions.FindNext | transaction-pool/src/transactions.rs:68-77 | the entry behind the one that compares equal |
| PoolTransactions.Transactions.WorstAndBest | transaction-pool/src/transactions.rs:57-66 | the last and the first entry with their scores |
| PoolImpl.Pool.constructor | transaction-pool/src/pool.rs:100-115 | a new pool is empty and valid |
| PoolImpl.Pool.Import | transaction-pool/src/pool.rs:130-206 | refines the state machine's import |
| PoolImpl.Pool.Enter | transaction-pool/src/pool.rs:171-206 | its second half |
| PoolImpl.Pool.RemoveWorst | transaction-pool/src/pool.rs:276-322 | evicts, refuses or leaves undecided as the rule says (`JudgedBy`) |
| PoolImpl.Pool.MakeRoom | transaction-pool/src/pool.rs:156-168 | an eviction loop refines the recursive one and terminates |
| PoolImpl.Pool.UpdateSendersWorstAndBest | transaction-pool/src/pool.rs:227-270 | both ordered sets and the map follow the changed list |
| PoolImpl.Pool.PutBack | transaction-pool/src/pool.rs:325-340 | putting a changed list back is one commit of the state machine |
| PoolImpl.Pool.RemoveFromSet | transaction-pool/src/pool.rs:325-340 | the same with removal |
| PoolImpl.Pool.CullFromSet | transaction-pool/src/pool.rs:325-340 | the same with culling |
| PoolImpl.Pool.FinalizeInsert | transaction-pool/src/pool.rs:209-216 | index and memory counter take the newcomer in and the displaced one out |
| PoolImpl.Pool.FinalizeRemove | transaction-pool/src/pool.rs:219-224 | index and memory counter lose the transaction, if it is there |
| PoolImpl.Pool.Remove | transaction-pool/src/pool.rs:359-371 | refines removal, the index being changed before the list |
| PoolImpl.Pool.RemoveStalled | transaction-pool/src/pool.rs:374-388 | refines culling one sender |
| PoolImpl.Pool.Cull | transaction-pool/src/pool.rs:391-408 | refines culling the given senders, or all of them once in some order |
| PoolImpl.Pool.UpdateScores | transaction-pool/src/pool.rs:458-471 | the sender's new scores are what the scoring answers, and its entries in both ordered sets move under them |
| PoolImpl.Pool.Clear | transaction-pool/src/pool.rs:345-354 | empties everything but the insertion id |
| PoolImpl.Pool.WorstTransaction | transaction-pool/src/pool.rs:416-418 | a transaction whose score no sender's last one is below, the newest of these; none exactly when the pool is empty |
| PoolPending.PendingIterator.Pending | transaction-pool/src/pool.rs:431-433 | starts over all lists |
| PoolPending.PendingIterator.PendingFromSender | transaction-pool/src/pool.rs:436-450 | starts over one sender's list |
| PoolPending.PendingIterator.Next | transaction-pool/src/pool.rs:591-623 | terminates; everything it looks at is the greedy choice, all but the returned one are not ready, and none is left when it returns nothing |
| PoolPending.AdvanceTakes | transaction-pool/src/scoring.rs:122-126 | the first frontier entry comes before all other senders' next transactions |
| PoolPending.GreedyByScore | transaction-pool/src/scoring.rs:122-126 | what is looked at has a score at least that of every other sender's next transaction, and on a tie the smaller insertion id |
| PoolPending.AnsweredInOrder | transaction-pool/src/pool.rs:591-623 | every answer was given with all bodies looked at before, in order, as history |
| PoolPending.AdvanceIs | transaction-pool/src/pool.rs:593-612 | the frontier holds exactly what is next, one entry per sender |
| PoolPending.GreedyDistinct | transaction-pool/src/pool.rs:591-623 | no transaction is looked at twice |
| PoolPending.GreedyInOrder | transaction-pool/src/pool.rs:591-623 | one sender's transactions come in ascending order and never behind a Future one |
| PoolPending.GreedyUnique | transaction-pool/src/pool.rs:591-623 | pool and readiness check determine the whole walk |
| PoolPending.ExhaustedSeen | transaction-pool/src/pool.rs:591-623 | a finished walk looked at exactly those transactions before which all of their list were found Ready or Stale |
| PoolPending.UnseenShrinks | transaction-pool/src/pool.rs:592-620 | each pass leaves fewer transactions to look at |

## Left out

- Storage backends, browser and foreign-function code (kvdb-rocksdb, kvdb-web, parity-util-mem, parity-path, trace-time): input and output, or calls into code that is not visible.
- parity-crypto, keccak-hash and the `Hasher` of hash_db: hashes are an arbitrary function from bytes to bytes.
- fixed-hash, ethbloom, ethereum-types, contract-address, serde and codec glue, rlp-derive: plumbing, generated code, or pointwise facts.
- Hexadecimal and byte conversions, bit operators, `as_u64` and the like, the checked and saturating wrappers of `uint`: each follows from the operation it wraps.
- A division by zero in `div_mod` and a call that panics in `RlpStream` (too many items, closing what is not open) are preconditions; an overflow in `pow` is a `None`.
- Knuth's division, `import` and `hash256rlp` are split into several methods; the statements and their order are those of the one function.
- `RlpStream::estimate_size`, `append_raw_checked`, `len` and `as_raw`: size estimates and views of the buffer.
- `rlp_append` for types other than byte strings, integers and lists written with `begin_list` or `begin_unbounded_list` and `append`.
- Encoding.Header: the Yellow Paper leaves lengths of 2^64 bytes and more undefined; the lead byte is given a value there that is never used for the results.
- Reader.DecodeUsizeLoop: an empty slice would panic in the source; no caller passes one, and it is a precondition here.
- RoundTrip.DecodeTree: reads a list without a cache; on a list slice with bytes behind the list the iterator of the source may go on into them, as `Reader.CacheInvisible` and `Reader.FreshCountExact` say. A list with a malformed tail is cut short, as the iterator does it, and only slices that are exactly one item are claimed to be canonical.
- TrieMerkle.RootDeterminesContents: that the hash does not collide on what is hashed for the two collections, and is never empty, is a hypothesis.
- `sec_trie_root` hashes the keys first and then is `trie_root`.
- A sender limit of zero makes the first import panic (transaction-pool/src/transactions.rs:87); a positive limit is a precondition of the pool.
- Listeners, logging and error texts of the pool, and its status reports, which only count.
- `UnorderedIterator`: it skips to the next sender at a transaction that is not ready, so it is no reordering of the pending set.
- `Arc` sharing and `SmallVec` storage: a transaction is a value, equality of hashes is equality of what was imported.
- PoolImpl.Pool.PutBack: a sender's list is taken out of the map, changed as an object and put back, where the source changes it inside the map; no other reference to it exists there either.
- Hashes and senders are natural numbers and scores are integers in place of arbitrary types with equality and order; insertion ids and the memory counter do not wrap around.
- The ordered sets of the pool are maps from score and insertion id, which is what their ordering compares; a walk in order picks the first or last key.
- KvStore.InMemory.IterWithPrefix: the result is the set of pairs; their ascending order, `get_by_prefix`, `iter` and the lock around the columns are not modelled.
