# libshl, modelled and verified in Dafny

libshl is a set of small C data structures, several of which use bit tricks or pointer tricks where a fast form has to
agree with a simple one. This project models the hard core of the library and proves that the fast forms are the
simple ones, for every input and over whole runs.

| files | part of libshl | abstraction |
|---|---|---|
| `TrieKeys`, `CritBitTree`, `TrieShape`, `TrieHeap`, `TrieTraverse`, `TrieRun` | the crit-bit trie (`src/shl_trie.c`) | a finite set of entries; the tree is a function of their keys |
| `HTableCells`, `HTableWords`, `HTableModel`, `HTable`, `HTableRun` | the hash table (`src/shl_htable.c`) | a multiset of elements |
| `Words64`, `Queues`, `PtyRing` | the byte queues (`src/shl_ring.c`, `src/shl_buf.h`, the ring of `src/shl_pty.c`) | a byte sequence; for the pty a conserved stream |
| `QuotedStrings`, `QuotedStringsCode` | quoted strings (`src/shl_util.c`) | a pure transducer, a tokenizer and their round trip |
| `Atoi`, `Paths`, `RateLimit` | integer parser, path prefix, rate limiter (`src/shl_util.c`) | positional value, component lists, a partition of time into windows |
| `DList` | the intrusive circular list (`src/shl_dlist.h`) | a sequence of nodes |

How the C is read:

- **Heap.** Trie nodes, list nodes and tables are Dafny objects and arrays that the methods update in place. A trie
  child slot is a null, node or entry target with a visited mark. `live` of a trie is the set of allocated nodes; every load,
  store and free of a node requires membership in it, so a double free or a use after free would not verify.
- **Allocation** is a flag, a sequence of flags or a number of successes that the environment chooses. Failures that the
  code tests take its error path; the one that it does not test is an outcome of its own.
- **Callbacks** are the sequence of arguments they would be called with. `writev` returns any result that is negative
  or at most the number of bytes offered. The clock is an input.
- **Integers.** Hash-table words are `bv64`. Sizes are numbers with the 64-bit wrap written out. `Words64` connects the two:
  masking with a power of two minus one is the remainder, bit smearing gives the least sufficient power of two.

Where the code differs from what its documentation or naming suggests, the model follows the code and the difference is
a theorem:

- `shl_trie_visit` with an empty prefix hands the trie head itself to the traversal (`src/shl_trie.c:536`), which takes it
  for an entry: one callback on the head. `TrieTraverse.Visit` traverses that address and states that the documented
  result is delivered if and only if the prefix is non-empty or the trie is empty.
- `shl_trie_insert` into an empty trie does not set `*out` (`src/shl_trie.c:241-244`); `TrieHeap.Trie.Insert` says so.
- The hash table needs every stored word to exceed 1, and the bit that it reveals of the first address
  (`src/shl_htable.c:278-289`) need not be set in the next one. A set of addresses above 1 can be kept in one table if and only
  if each address has, next to every other one, the other's most significant bit or a bit above bit 0 that the other has not:
  `HTableRun.Run` proves the table right for all runs on such a set, and `HTableRun.PutTwo` that for every pair which fails the
  condition the code stores two elements, reports success twice and has lost the second. Addresses with a common most
  significant bit satisfy it (`HTableRun.SameTopIsCompatible`).
- `deleted` is not decremented when a tombstone's bucket is reused (`src/shl_htable.c:201-205`): it is an upper bound, which
  is all that termination needs.
- The tokenizer never opens a quote (`src/shl_util.c:620-623`). `QuotedStrings.RoundTrip` gives the exact set of lists that survive
  joining and tokenizing; `QuotedStrings.SpaceIsLost` is an example of one that does not.
- The tokenizer does not test the allocation of a token (`src/shl_util.c:576-577`): where it fails, the code writes through a null
  pointer instead of returning the error. `QuotedStringsCode.Tokenize` states exactly when.
- The integer parser silently skips the addition of a last digit that would wrap (`src/shl_util.c:145-146`). `Atoi.Parse` says what it
  returns then, and `Atoi.WrapsExactly` that this can happen exactly in the bases that do not divide 2^64.
- `begin + interval` in the rate limiter is a wrapping sum (`src/shl_util.c:912`). `RateLimit.LimitsExactly` states that the limiter limits all runs up
  to a time if and only if a window opened then ends within 64 bits.
- The size computation of `shl_qstr_join` tests for overflow three times; the last test (`src/shl_util.c:747`) compares with the
  wrong operand. `QuotedStringsCode.BytesNeededExact` gives the exact condition under which the tests are right, and
  `QuotedStringsCode.LongestIsMissed` the string length and lines for which they are not.
- `SHL_ALIGN_POWER2` promises 0 on overflow (`src/shl_macro.h:127`); beyond 2^63 its shift is undefined. The model follows the
  expression up to there and the comment beyond. All its callers pass at least 64.
- `SHL_RATELIMIT_DEFINE` lists its fields in another order than the struct; initialisation is modelled by `SHL_RATELIMIT_INIT`.

## Model

| member | source | states |
|---|---|---|
| `TrieKeys.DirectionIsBit` | src/shl_trie.c:197-209 | adding one to otherbits or-ed with the byte and shifting by eight gives the critical bit of the byte, always 0 or 1 |
| `TrieKeys.DirectionAtPosition` | src/shl_trie.c:194-209 | a node's branch for a key is one bit of the key extended by infinitely many zeros |
| `TrieKeys.PositionOrder` | src/shl_trie.c:328-332 | the comparison of (byte, otherbits) pairs is the order of bit positions |
| `TrieKeys.SmearIsFirstBit` | src/shl_trie.c:284-292 | smearing the XOR of two bytes isolates their first differing bit |
| `TrieKeys.FirstDifference` | src/shl_trie.c:261-292 | the computed pair is the first bit at which the two keys differ |
| `TrieKeys.PrefixBits` | src/shl_trie.c:543-568 | a key starts with a prefix iff the two share the prefix's bits |
| `TrieKeys.BitLessIsLex` | src/shl_trie.c:543-568 | bit order of NUL-free keys is lexicographic order |
| `TrieKeys.LexMeans` | src/shl_trie.c:309-322 | in that order the first differing byte decides, and a key comes before its extensions |
| `CritBitTree.PositionsIncrease` | src/shl_trie.c:324-346 | positions strictly increase along every path of a crit-bit tree |
| `CritBitTree.WalkIsBestMatch` | src/shl_trie.c:190-210 | the blind walk reaches a stored key sharing the longest bit prefix: whatever prefix any stored key shares with the key looked up, the key reached shares it too |
| `CritBitTree.LookupIsMembership` | src/shl_trie.c:188-220 | comparing with the key reached by the walk decides membership |
| `CritBitTree.InsertKeys` | src/shl_trie.c:309-346 | insertion adds exactly the new key |
| `CritBitTree.InsertKeepsCritBit` | src/shl_trie.c:284-346 | insertion at the first difference keeps the crit-bit invariant, and the second walk never meets a node at the new position |
| `CritBitTree.RemoveDeletesKey` | src/shl_trie.c:353-401 | splicing out a key's parent keeps the invariant and removes exactly that key |
| `CritBitTree.Canonical` | src/shl_trie.c:222-401 | two crit-bit trees with the same keys are equal |
| `CritBitTree.CanonicalTrie` | src/shl_trie.c:222-401 | the same for tries, the empty one included |
| `CritBitTree.LeavesAscend` | src/shl_trie.c:408-509 | leaves from left to right are in strictly ascending lexicographic order |
| `CritBitTree.TopHoldsMatches` | src/shl_trie.c:543-568 | the sub-trie remembered by the visit loop holds exactly the stored keys with the prefix |
| `CritBitTree.NoMatchNowhere` | src/shl_trie.c:561-566 | if the best match lacks the prefix, so does every stored key |
| `CritBitTree.TopStays` | src/shl_trie.c:543-559 | once a position lies behind the prefix, all positions below do |
| `TrieShape.EntryKeysInjective` | src/shl_trie.c:222-351 | different stored entries have different keys |
| `TrieShape.Reassemble` | src/shl_trie.c:324-346 | replacing the sub-trie at the end of a path yields a well-linked trie whose nodes, entries and keys are those of path and sub-trie |
| `TrieHeap.Trie.Lookup` | src/shl_trie.c:176-220 | succeeds iff the key is stored, and returns the stored entry with that key |
| `TrieHeap.Trie.FindPosition` | src/shl_trie.c:246-299 | the first pass reports a stored key, or a position at which insertion keeps the invariant |
| `TrieHeap.Trie.FindSlot` | src/shl_trie.c:324-342 | the second pass finds the slot at which grafting the new node is the insertion of the tree theory |
| `TrieHeap.Trie.Insert` | src/shl_trie.c:222-351 | the exact status for misaligned, stored and new keys and failed allocation; success adds exactly the entry and, unless the trie was empty, one node; failure changes nothing; the exact out-parameter |
| `TrieHeap.Trie.Remove` | src/shl_trie.c:353-401 | succeeds iff the key is stored, removes exactly its entry and frees one node; failure changes nothing |
| `TrieTraverse.NodeStep` | src/shl_trie.c:463-508 | each of the three steps at a node keeps the reversed-pointer invariant and the callbacks to come, and shrinks a measure |
| `TrieTraverse.Traverse` | src/shl_trie.c:408-509 | terminates on every sub-trie, calls back each leaf once from left to right; without the free flag every child slot ends exactly as it was; with it exactly the sub-trie's nodes are freed, none touched after its free |
| `TrieTraverse.Clear` | src/shl_trie.c:511-517 | every entry is called back exactly once, in order, and no node stays allocated |
| `TrieTraverse.Visit` | src/shl_trie.c:519-569 | the stored entries with the prefix, each once, in strictly ascending order, and nothing else, iff the prefix is non-empty or the trie empty; the trie is left exactly as it was |
| `TrieRun.KeysAreStored` | src/shl_trie.c:176-351 | the keys of a trie are the keys of its entries |
| `TrieRun.Run` | src/shl_trie.c:176-569 | every run of insert, remove, lookup, visit and clear, with any failing allocations, refines a set of entries: every status, every entry handed out and every callback is the one the set calls for |
| `TrieRun.StructureFromKeys` | src/shl_trie.c:222-401 | two heap tries with the same keys have the same structure, whatever runs built them |
| `TrieRun.InsertRemove` | src/shl_trie.c:222-401 | inserting a new key and removing it restores the original structure |
| `HTableCells.HasEmpty` | src/shl_htable.c:163-177 | if elements and tombstones do not fill the table, some bucket is empty, so probing stops |
| `HTableCells.AddKeepsProbed` | src/shl_htable.c:194-206 | storing in the first free bucket keeps every element reachable from its home bucket |
| `HTableCells.RemoveKeepsProbed` | src/shl_htable.c:329-337 | a tombstone keeps all others reachable and removes exactly one element |
| `HTableCells.HomeBeforeElement` | src/shl_htable.c:247-269 | seen from an empty bucket no element lies before its home |
| `HTableCells.MoveElement` | src/shl_htable.c:255-266 | re-adding the element of the current bucket never moves it past the region already rehashed |
| `HTableCells.RehashedAll` | src/shl_htable.c:247-269 | after the last bucket everything is reachable and no tombstone is left |
| `HTableCells.PassedAll` | src/shl_htable.c:163-191 | a probe from home to an empty bucket has met every element of that home |
| `HTableWords.StoredDecodes` | src/shl_htable.c:63-72 | a stored word decodes to the pointer it was made from |
| `HTableWords.FoldMeans` | src/shl_htable.c:79-87 | folding a hash adds its bits above the bucket number to the lowest ones |
| `HTableWords.StoredMeta` | src/shl_htable.c:57-87 | and carries exactly the folded hash bits and the perfect bit |
| `HTableWords.StoredShown` | src/shl_htable.c:68-77 | a word that shows more than bit 0 of its address outside the mask is a valid entry under every hash |
| `HTableWords.VisibleIsShown` | src/shl_htable.c:277-311 | an address that has the top bit of the first one, or a bit above bit 0 that the first one has not, shows enough under every mask the code can come to |
| `HTableWords.HiddenIsLost` | src/shl_htable.c:277-311 | any other address is encoded as "empty" or "deleted" when it comes second and its hash is 0 |
| `HTableWords.TopIsSet` | src/shl_htable.c:282-287 | the bit revealed of an address above 1 is set in it and is not bit 0 |
| `HTableWords.RecodeKeepsPtr` | src/shl_htable.c:293-311 | update_common's change of a word keeps the pointer it decodes to |
| `HTableWords.HashBitsShrink` | src/shl_htable.c:293-311 | the hash bits under the shrunken mask are what remains of the old ones |
| `HTableModel.BucketIsMask` | src/shl_htable.c:158-161 | taking the remainder by 2^bits is masking with 2^bits - 1 |
| `HTableModel.WordForOk` | src/shl_htable.c:194-206 | the word ht_add writes is valid, decodes to the element and has correct metadata |
| `HTableModel.StoredElement` | src/shl_htable.c:194-206 | writing it into the first bucket without an element keeps the table sound and adds exactly that element |
| `HTableModel.DeletedElement` | src/shl_htable.c:329-337 | a tombstone keeps the table sound and removes exactly that element |
| `HTableModel.FurtherFits` | src/shl_htable.c:293-311 | the shrunken mask still hides no top bit of the first address, and every visible address can be stored under it |
| `HTableModel.LostWord` | src/shl_htable.c:194-206 | the word ht_add writes for an address not visible next to the first one is no entry, if its hash is 0 |
| `HTableModel.RecodeWord` | src/shl_htable.c:293-311 | after update_common a word is still valid, decodes to the same pointer and has the metadata of the shrunken mask |
| `HTableModel.PerfectMarksHome` | src/shl_htable.c:57-87 | while a perfect bit exists it marks exactly the elements in their home bucket |
| `HTableModel.ExamineBucket` | src/shl_htable.c:163-177 | the tests on a bucket never skip an element with the wanted hash |
| `HTableModel.RehashMove` | src/shl_htable.c:255-266 | one rehash step keeps the multiset, the untouched rest and all perfect entries |
| `HTable.Table.AddWord` | src/shl_htable.c:194-206 | the word goes to the first bucket from home on that holds no element; no other word changes |
| `HTable.Table.UpdateCommon` | src/shl_htable.c:272-312 | every bucket decodes as before, all metadata is right under the new mask, and the new address fits it |
| `HTable.Table.LowestBit` | src/shl_htable.c:224-232 | the search finds the least significant bit of the mask, and only that bit |
| `HTable.Table.Double` | src/shl_htable.c:208-245 | success keeps the multiset, drops all tombstones, makes room and takes back the lowest mask bit as perfect bit if it was lost; failure changes nothing |
| `HTable.Table.MoveAll` | src/shl_htable.c:234-242 | re-adding the old array's words reproduces its multiset, all reachable |
| `HTable.Table.FirstEmpty` | src/shl_htable.c:253 | the search for the starting bucket ends in an empty one |
| `HTable.Table.Rehash` | src/shl_htable.c:247-269 | in place: the multiset is kept, every element is reachable, no tombstone is left, perfect entries never move |
| `HTable.Table.Insert` | src/shl_htable.c:314-327 | for every address above 1: what is reported, which word is written and what becomes of the mask; fails iff the table is full and cannot be doubled, and then changes nothing; adds exactly one occurrence if the address is visible next to the first one |
| `HTable.Table.Val` | src/shl_htable.c:163-177 | returns the next candidate or stops at an empty bucket; no element with the hash is skipped |
| `HTable.Table.NextVal` | src/shl_htable.c:186-191 | the iteration over candidates strictly advances towards an empty bucket |
| `HTable.Table.Lookup` | src/shl_htable.c:372-390 | succeeds iff some stored element compares equal, and returns one |
| `HTable.Table.DeleteAt` | src/shl_htable.c:329-337 | removes exactly that occurrence and keeps the table invariant |
| `HTable.Table.Remove` | src/shl_htable.c:401-420 | succeeds iff some stored element compares equal, removes one occurrence of it, else changes no element |
| `HTable.Table.Visit` | src/shl_htable.c:144-156 | the callbacks are the stored multiset |
| `HTable.Table.ThisOrNext` | src/shl_htable.c:121-131 | the first bucket from the index on that holds an element, or none is left |
| `HTable.Table.Clear` | src/shl_htable.c:100-119 | calls back the stored multiset and leaves a fresh empty table |
| `HTableRun.Run` | src/shl_htable.c:100-420 | every run of insert, lookup, remove, visit and clear on compatible addresses, with any failing allocations, is a run of the specification over a multiset and an array size: every answer is the one it calls for, an insert being refused exactly if the array is full and cannot be doubled |
| `HTableRun.PutTwo` | src/shl_htable.c:272-327 | for any two addresses above 1 and hash 0, storing both is explained by the multiset specification iff the second is visible next to the first; otherwise both are reported as stored and the second is lost |
| `HTableRun.SameTopIsCompatible` | src/shl_htable.c:278-289 | addresses with a common most significant bit can be kept together |
| `Words64.MaskIsMod` | src/shl_ring.c:19 | `v & (s - 1)` is the remainder by s for a power of two s |
| `Words64.SmearIsLeast` | src/shl_pty.c:87-100 | smearing v - 1 and adding one gives the least power of two not below v |
| `Words64.LeastPow2Range` | src/shl_pty.c:87-100 | that power fits 64 bits exactly up to 2^63 |
| `Words64.AlignIsLeast` | src/shl_macro.h:128-131 | the shift by 64 minus the leading zeros of u - 1 is defined and gives the least power of two not below u, from 2 to 2^63 |
| `Queues.SmearUp` | src/shl_pty.c:87-100 | the loop of doubling shifts computes the least sufficient power of two |
| `Queues.AlignUp` | src/shl_macro.h:127-131 | the least power of two not below u, and 0 beyond 2^63; callers pass at least 64 |
| `Queues.RingMaskIsAnd` | src/shl_ring.c:19 | on words the ring mask is the remainder by the size, and leaves everything for an empty ring |
| `Queues.WindowAppend` | src/shl_ring.c:151-175 | bytes written behind a circular window, wrapped or not, are appended to it |
| `Queues.WindowDrop` | src/shl_ring.c:181-188 | advancing the start of a circular window drops its first bytes |
| `Queues.Ring.Peek` | src/shl_ring.c:45-64 | one range of the buffer, or two exactly if the contents pass its end; together they are the contents |
| `Queues.Ring.Copy` | src/shl_ring.c:71-89 | the prefix of the contents of the size asked for |
| `Queues.Ring.Resize` | src/shl_ring.c:95-120 | keeps the contents; a failed allocation changes nothing |
| `Queues.Ring.Grow` | src/shl_ring.c:127-145 | succeeds iff there is room, or the sum stays within 2^63 and allocation works; the new size is the least power of two, at least 4096 |
| `Queues.Ring.Push` | src/shl_ring.c:151-175 | appends on success, changes nothing on failure, and says exactly when it fails |
| `Queues.Ring.Pull` | src/shl_ring.c:181-188 | removes that many bytes from the front, or all |
| `Queues.Ring.Flush` | src/shl_ring.c:21-25 | empties the ring and keeps its buffer |
| `Queues.Buffer.GreedyRealloc` | src/shl_util.c:231-250 | succeeds iff the size suffices, or is at most 2^63 and allocation works; the contents are kept and the new size is the least power of two, at least 64 |
| `Queues.Buffer.Push` | src/shl_buf.h:48-66 | appends on success, and says exactly when it fails |
| `Queues.Buffer.Pop` | src/shl_buf.h:68-71 | removes that many bytes from the end, or all |
| `Queues.Buffer.Pull` | src/shl_buf.h:73-78 | removes that many bytes from the front, or all |
| `Queues.RunRing` | src/shl_ring.c:21-188 | every run answers and ends as the specification over a byte sequence and a buffer size does: which pushes succeed, the size, and the bytes of the successful operations in order |
| `Queues.AllSucceed` | src/shl_ring.c:151-188 | with memory for all that is asked for, every operation succeeds |
| `Queues.EnoughIsAmple` | src/shl_ring.c:127-145 | which is so when allocations succeed and all pushed bytes together fit 2^63 |
| `Queues.RunBoth` | src/shl_buf.h:48-78 | ring and linear buffer hold the same bytes after the same successful operations, and after all operations if memory is ample |
| `PtyRing.Ring.Resize` | src/shl_pty.c:55-84 | moves the contents, wrapped or not, to the front of the new buffer unchanged |
| `PtyRing.Ring.RingPow2` | src/shl_pty.c:87-100 | the least power of two not below v, 4096 for 0, 0 beyond 2^63 |
| `PtyRing.Ring.Grow` | src/shl_pty.c:107-134 | makes room and still leaves one slot free, so that full is never taken for empty |
| `PtyRing.Ring.Push` | src/shl_pty.c:140-168 | appends on success, changes nothing on failure, and says exactly when it fails |
| `PtyRing.Ring.Peek` | src/shl_pty.c:182-197 | one range of the buffer up to the end cursor, or up to the end of the buffer and from its start on; together they are the contents |
| `PtyRing.Ring.Pop` | src/shl_pty.c:203-224 | drops that many bytes, or all, in at most two moves |
| `PtyRing.Pty.Write` | src/shl_pty.c:551-557 | refused for lack of a device iff the pty is closed, accepted iff it is open and the ring has room or can grow; as a whole or not at all |
| `PtyRing.Pty.Drain` | src/shl_pty.c:507-521 | exactly the bytes the descriptor took leave the front of the queue |
| `PtyRing.Pty.Close` | src/shl_pty.c:483-490 | the pty is closed |
| `PtyRing.Run` | src/shl_pty.c:483-557 | every run of writes, partial or failing drains and closes follows the specification over an open flag, queued bytes and a buffer size: every answer, every byte sent, and bytes sent followed by bytes queued are the accepted writes |
| `PtyRing.Conservation` | src/shl_pty.c:507-557 | in that specification no byte is lost, duplicated or reordered |
| `PtyRing.FullDrain` | src/shl_pty.c:507-521 | a descriptor that takes everything empties an open pty |
| `PtyRing.ClosedForGood` | src/shl_pty.c:483-557 | behind a close every write is refused and nothing is sent |
| `QuotedStrings.DecodeShrinks` | src/shl_util.c:512-561 | decoding never lengthens a string and never writes a terminator of its own |
| `QuotedStrings.EscapeRules` | src/shl_util.c:484-510 | what each of the ten escapes decodes to, byte by byte, in every quoting state |
| `QuotedStrings.OtherEscapes` | src/shl_util.c:523-533 | any other byte keeps its backslash, a zero byte vanishes with it, a trailing backslash stays |
| `QuotedStrings.PlainRules` | src/shl_util.c:534-554 | either quote opens a quotation that only the same quote closes; zero bytes vanish, all others stay |
| `QuotedStrings.TokenRules` | src/shl_util.c:610-649 | tokens are cut at byte 32 unless byte 92 stands before it, and nowhere else |
| `QuotedStrings.EncodeRules` | src/shl_util.c:672-717 | byte 92 goes before 92 and 34, and 34 around a string that holds 32, 9, 10 or 11 |
| `QuotedStrings.JoinRules` | src/shl_util.c:733-759 | joined strings are separated by one byte 32 |
| `QuotedStrings.DecodeEncode` | src/shl_util.c:672-696 | decoding an encoded string gives it back iff a single quote in it implies that it was quoted |
| `QuotedStrings.TokensHaveNoSpace` | src/shl_util.c:587-665 | no token of a joined line contains a space |
| `QuotedStrings.RawOfJoin` | src/shl_util.c:719-768 | a line joined from strings without spaces splits into exactly their non-empty encoded forms |
| `QuotedStrings.RoundTrip` | src/shl_util.c:587-768 | tokenizing a joined list gives the list back iff every string is non-empty, has no space, and has a single quote only along with a tab, newline or vertical tab |
| `QuotedStrings.SpaceIsLost` | src/shl_util.c:620-623 | a string with a space does not survive, because the tokenizer never opens a quote |
| `QuotedStringsCode.DecodeByte` | src/shl_util.c:522-555 | one round follows the transducer and writes no byte that is still to be read, even the two bytes of an unknown escape |
| `QuotedStringsCode.DecodeInPlace` | src/shl_util.c:512-561 | in-place decoding equals the transducer on the original bytes; the terminator lands within length + 1 and later bytes stay |
| `QuotedStringsCode.PushToken` | src/shl_util.c:563-585 | appends the decoded token, reports a failed reservation, or writes through null where the token cannot be allocated |
| `QuotedStringsCode.Tokenize` | src/shl_util.c:587-665 | up to 2^31 - 1 tokens decoded, the out-of-memory error, or the null write, each exactly when; the null write iff a token cannot be allocated while the list has room for it |
| `QuotedStringsCode.Length` | src/shl_util.c:698-717 | the length, and that quotes are needed iff byte 32, 9, 10 or 11 occurs |
| `QuotedStringsCode.EncodeInto` | src/shl_util.c:672-696 | appends the encoded form in at most 2 l + 2 bytes |
| `QuotedStringsCode.Reserve` | src/shl_util.c:267-288 | keeps the bytes in use and grows to the least power of two, at least 64; refuses exactly sizes beyond 2^63 and growth without memory |
| `QuotedStringsCode.BytesNeededExact` | src/shl_util.c:736-749 | the three wrapping tests report exactly the overflowing sums iff 2 l + 4 fits 64 bits or 2 l + len does not |
| `QuotedStringsCode.LongestIsMissed` | src/shl_util.c:736-749 | for a string of 2^63 - 2 bytes they fail behind lines of at most three bytes, and only there |
| `QuotedStringsCode.AddString` | src/shl_util.c:734-758 | one element is appended inside its 2 l + 4 reserved bytes; refused exactly beyond 2^63 or without memory to grow, and then nothing is written |
| `QuotedStringsCode.JoinStrings` | src/shl_util.c:719-768 | the joined line, or out of memory exactly if an allocation that is needed fails, the reserved bytes exceed 2^63 or the line exceeds INT_MAX; with memory for every string, out of memory iff the line is longer than 2^31 - 1 bytes |
| `QuotedStringsCode.ShortStringsJoin` | src/shl_util.c:736-749 | all lists of strings of at most 2^63 - 3 bytes may be joined |
| `QuotedStringsCode.JoinThenTokenize` | src/shl_util.c:587-768 | the two loops one after the other, with all memory they ask for: both succeed iff the line has at most 2^31 - 1 bytes, and give the list back iff every string survives |
| `Atoi.MultUllExact` | src/shl_macro.h:171-176 | the division test rejects exactly the overflowing products |
| `Atoi.DecimalDigits` | src/shl_util.c:47-50 | the ten decimal digits have their values in every base above them |
| `Atoi.LowerCaseDigits` | src/shl_util.c:51-53 | the lower-case letters are the digits from ten on |
| `Atoi.UpperCaseDigits` | src/shl_util.c:54-56 | and so are the upper-case letters |
| `Atoi.NoOtherDigits` | src/shl_util.c:57-65 | no other byte is a digit |
| `Atoi.SkipBaseIs` | src/shl_util.c:68-91 | a zero before an octal digit means base 8 from the next byte on, a zero and an x before a hexadecimal digit base 16 from the third, everything else base 10 |
| `Atoi.DigitsAre` | src/shl_util.c:125-128 | the digits read are the longest run of digits of the base |
| `Atoi.DigitKeeps` | src/shl_util.c:130-147 | each digit keeps the accumulator in step with the positional value, across the switch from 32 to 64 bits and after overflow |
| `Atoi.Parse` | src/shl_util.c:93-162 | consumes the base prefix and the longest digit run; the exact value if it fits 64 bits, -ERANGE and the maximum if not, except where only the last digit's addition wraps |
| `Atoi.DividingBaseNeverWraps` | src/shl_util.c:143-147 | in a base that divides 2^64 no last digit wraps |
| `Atoi.OtherBaseWraps` | src/shl_util.c:143-147 | in every other base the numeral of 2^64 is read without an error as a smaller number |
| `Atoi.WrapsExactly` | src/shl_util.c:143-147 | some input wraps silently iff the base does not divide 2^64 |
| `Paths.JoinedPath` | src/shl_util.c:795-813 | a slash separates: the components of a joined path are those of its parts, in order |
| `Paths.OneComponent` | src/shl_util.c:795-813 | a path without byte 47 is one component, or none if it is empty |
| `Paths.ComponentsAreProper` | src/shl_util.c:795-813 | components are non-empty and hold no slash |
| `Paths.StartsWith` | src/shl_util.c:784-814 | succeeds iff both or neither begin with byte 47 and the prefix's components are a prefix of the path's; the result holds exactly the remaining components and does not begin with byte 47 |
| `Paths.Below` | src/shl_util.c:784-814 | every path starts with any part of it that ends before a byte 47, and the rest is what follows |
| `Paths.Mixed` | src/shl_util.c:793-794 | an absolute path never starts with a relative prefix, nor the other way round |
| `RateLimit.Limiter.Test` | src/shl_util.c:903-925 | one call's answer and new state |
| `RateLimit.RunIsWindows` | src/shl_util.c:903-925 | a run answers as if cut into windows, each accepting exactly its first `burst` calls |
| `RateLimit.SpanBound` | src/shl_util.c:903-925 | any closed span of one interval holds at most 2 burst - 1 accepted calls |
| `RateLimit.WindowCalls` | src/shl_util.c:912-915 | a window holds the calls up to one interval after its first one, and no later one |
| `RateLimit.WindowByWindow` | src/shl_util.c:903-925 | of k calls in a window exactly the first min(k, burst) are accepted, and the run goes on behind it like a new one |
| `RateLimit.OneWindowOnly` | src/shl_util.c:903-925 | with an interval of 2^63 - 1 or more a whole run accepts at most one burst |
| `RateLimit.BoundIsSharp` | src/shl_util.c:903-925 | for every interval and burst, the largest number of calls that any span of one interval accepts in any admissible run |
| `RateLimit.NeverLimited` | src/shl_util.c:912-914 | at time zero, or where the window's end wraps, every call is accepted |
| `RateLimit.LimitsExactly` | src/shl_util.c:912-914 | all runs up to a time are limited iff a window opened then ends within 64 bits |
| `RateLimit.Run` | src/shl_util.c:903-925 | the whole life of a limiter: the window reference and the span bound, and no limit for a zero interval or burst |
| `DList.MutualInverse` | src/shl_dlist.h:34-48 | in a circle next and prev undo each other |
| `DList.RotateCircle` | src/shl_dlist.h:27-48 | a circle may be read from any of its nodes |
| `DList.ListIsUnique` | src/shl_dlist.h:27-48 | the pointers determine the list |
| `DList.Link` | src/shl_dlist.h:40-54 | prepends the node |
| `DList.LinkTail` | src/shl_dlist.h:56-60 | appends the node |
| `DList.Unlink` | src/shl_dlist.h:62-76 | removes the node from its circle; a node that is not linked is left alone |
| `DList.Delete` | src/shl_dlist.h:62-76 | removes that element from the list and leaves it unlinked |
| `DList.Ends` | src/shl_dlist.h:83-96 | empty, first and last |
| `DList.ForEach` | src/shl_dlist.h:107-108 | visits the elements in order |
| `DList.ForEachReverse` | src/shl_dlist.h:123-124 | visits the elements in reverse order |
| `DList.ReversedAt` | src/shl_dlist.h:123-124 | which is element by element the mirror image |
| `DList.OthersCover` | src/shl_dlist.h:110-117 | the cyclic order from the start on holds every element but the start, each once |
| `DList.ForEachButOne` | src/shl_dlist.h:110-117 | visits every element except the start in cyclic order, also when the start is the head or the only element |
| `DList.ForEachReverseButOne` | src/shl_dlist.h:126-133 | the same, backwards |
| `DList.ForEachSafe` | src/shl_dlist.h:119-121 | visits every element although the body unlinks any chosen subset of the current ones; the list keeps the others in order |
| `DList.KeptIs` | src/shl_dlist.h:119-121 | what is left are the nodes not dropped, each in its place |
| `DList.ForEachReverseSafe` | src/shl_dlist.h:135-137 | the same, backwards |
| `DList.Run` | src/shl_dlist.h:34-76 | every legal run of link, link_tail and unlink acts on the abstract sequence, and nodes outside it are unlinked |

## Left out

- HTable.Table.Insert: promises the new element only for addresses the table admits; `HTableRun.PutTwo` shows that the code loses others.
- HTableRun.Run: requires fewer than 3/4 * 2^30 elements at every insertion, because `1 << ht->bits` is an int; an insert passes the hash `rehash(p)`, which is what the source requires of its caller.
- HTable.Table.Double: requires fewer than 30 bits before doubling, for the same reason.
- HTable.Table.Lookup: requires, as the interface of the source does, that elements equal to the one looked up have the hash passed in.
- TrieHeap.Trie.Insert: requires that the entry is not the trie head itself; the source does not check this.
- Queues.AlignUp: beyond 2^63 the shift of the source is undefined; the result 0 is what its comment promises.
- Queues.Ring.Grow: refuses sizes beyond 2^63 as that comment promises.
- Queues.Ring.Push: refuses sizes beyond 2^63 as that comment promises.
- Queues.Buffer.GreedyRealloc: refuses sizes beyond 2^63 as that comment promises.
- Queues.Buffer.Push: refuses sizes beyond 2^63 as that comment promises.
- QuotedStringsCode.Reserve: refuses sizes beyond 2^63 as that comment promises.
- QuotedStringsCode.JoinStrings: requires that the overflow tests of the source notice every overflow; `QuotedStringsCode.BytesNeededExact` says exactly when they do.
- QuotedStringsCode.Tokenize: counts successful reservations of list space without modelling which of them reallocate.
- PtyRing.Ring.Push: requires fewer than 2^63 bytes, the size limit of a C object.
- Atoi.Parse: the narrower variants (`shl_atoi_uln`, `shl_atoi_un`, `shl_atoi_zn`) and NULL out-parameters are not modelled.
- DList.Link: requires that the node is not in the list already; the source does not check this.
- Tag bits of trie pointers as machine words (`src/shl_trie.c:67-159`): a slot is a datatype with a visited flag, and alignment is a flag of the entry.
- Real addresses and the allocator, apart from the address bits the hash table uses.
- `shl_htable_get_entry`, the ready-made compare and rehash functions and the typed wrappers of `src/shl_htable.h` and `src/shl_trie.h`.
- `shl_strcat`, `shl_strjoin`, `shl_strsplit_n` and `shl_strv_free`: string plumbing that would only add easy members.
- The mkdir helpers and `shl_now`: file system and clock.
- The rest of `src/shl_pty.c` (fork, termios, reading, the epoll bridge) and all of `src/shl_edbus.c`: system calls and libdbus glue.
- Logging (`src/shl_log.c`, `src/shl_llog.h`) and the build files.
