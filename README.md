# A model of delta's hash maps, growable arrays, exchange sort and qex parser

delta is a small C library of containers. This project models its core in
Dafny and proves what the code promises about it:

- **Chains** (`Chains.dfy`): the bucket layout shared by all four hash maps.
  An array of buckets holds up to eight slots each, with overflow buckets
  linked through `next`. The module covers:
  - bucket selection by `hash & (nb_buckets - 1)`;
  - the lookup walk along a chain;
  - appending to a chain's last bucket, or to a newly linked one;
  - swap-with-last removal;
  - the iteration order (array bucket, then chain, then slot);
  - capacity rounding.

  Every step is proved against the map a table stands for (`Contents`).
- **Map** (`Map.dfy`): the current generic map `src/map.c`. It has
  caller-hashed keys, a key buffer per bucket and a get-or-insert API. The
  map grows to a copy of twice the capacity when the load passes 6.5 keys
  per bucket. Its iterator is modelled too.
- **StrMap** (`StrMap.dfy`): the string maps `src/strmap.c` and `strmap.c`.
  Both keep every key in one shared arena that only grows. An insertion
  rehashes into a map of twice the capacity when overloaded. Their iterator
  is modelled too.
- **LegacyMap** (`LegacyMap.dfy`): the oldest map, `map.c`. Keys are
  copied with `strdup` and hashed with djb2, which is modelled exactly for
  a signed `char` and a 64-bit `unsigned long`. The map rehashes in place through `map_each_ctx`.
- **Vec** (`Vec.dfy`): the growable array of `src/vec.c`. `slice.c` is the
  same code under `slice_*` names. A header {len, capacity, elem_size}
  describes an element buffer, which the model holds as an `array`.
- **Sort** (`Sort.dfy`): the in-place exchange sort of `vec_sort_any`,
  `slice_sort_any` and `sort.c`, with its typed wrappers.
- **Qex** (`Qex.dfy`): the parsing core of the `qex` tool
  (`test/qex/qex.c`). It covers `toint`, `parse_range`, `qex_is_equal`, and
  `index_tsv_line`, which rewrites a line buffer in place and counts queries.
- **Common** (`Common.dfy`): bytes, 64-bit words, `Option`, bitwise AND on
  naturals, powers of two, and the allocator's may-fail step.

The objects the C code updates in place are Dafny classes: the maps, their
iterators, the vec and the qex state. Their methods carry `modifies`
clauses, and each is proved against a value-level specification: a table of
chains, its `Contents` map, and `Items`, the sequence of slots in iteration
order. The load factor test `len / nb_buckets > 6.5` is written as the
integer test `2 * len > 13 * nb_buckets`.

Where the code departs from what its documentation or its evident intent
promises, the model follows the intent and models the code as written
beside it, with a lemma showing the difference; each such place is a row
under Findings. There are seven:

- `map_insert_impl` after growth writes the new slot through `bp.prev`, a
  bucket of the map just deleted. Map.Map.Get looks the key up again in the
  copy; Map.GrowthInsertAsWritten and Map.GrowthLosesKey model the code.
- `vec_grow_to_fit` raises a capacity of 0 to 1 without reallocating.
  Vec.Vec.GrowToFit reallocates; Vec.GrowthAsWritten models the code.
- `vec_back` on an empty vec returns `data - elem_size`. Vec.Vec.Back returns
  NULL, as `vec.h` promises; Vec.BackIndexAsWritten models the code.
- `vec_sub` accepts a positive end past the length. Vec.Vec.Sub returns NULL
  for it; Vec.SubCountAsWritten models the code.
- `src/strmap.c` compares keys with `strncmp` over the query's length, a
  prefix match. StrMap.StrMap.FindBucketPos compares whole keys, as
  `strmap.c` does; StrMap.PrefixIs models the prefix match.
- `strmap.c`'s iterator leaves its bucket unset on an empty map.
  StrMap.Iterator.constructor sets it to NULL, as `src/strmap.c` does;
  StrMap.StartBucketAsWritten models the unset bucket.
- `qex_is_equal` passes a field when the line's bits are a subset of the
  user's. Qex.Qex.IndexTsvLine counts by the intended test, Qex.Matches;
  Qex.IsEqualAsWritten and Qex.Qex.IndexTsvLineAsWritten model the code.

## Model

| member | source | states |
|---|---|---|
| Common.BitAndBelow | src/map.c:191 | `a & b` never exceeds `b`, so a masked hash is below the mask |
| Common.BitAndOnes | src/map.c:191 | a mask of k one-bits leaves every value below 2^k unchanged |
| Common.BitAndComm | test/qex/qex.c:198 | `a & b == b & a` |
| Common.BitAndSelf | test/qex/qex.c:198 | `x & x == x`, the reason equal fields pass qex_is_equal |
| Common.DivModUnique | map.c:118 | a quotient and remainder in range are the ones `/` and `%` give (used for `unsigned long` wrap-around) |
| Chains.Home | src/map.c:190-191 | the bucket `hash & (nb_buckets - 1)` is below nb_buckets for every bucket count, power of two or not |
| Chains.HomeSkipsMiddleOfThree | src/map.c:191 | with three buckets the mask never selects the middle one: the index stays in range but buckets go unused |
| Chains.ItemsUpdate | src/map.c:343-366 | replacing one chain replaces exactly its run of items in iteration order |
| Chains.ChainItems | src/map.c:346-359 | the slots of a chain in walk order, bucket after bucket; a lone bucket yields exactly its slots |
| Chains.Items | src/map.c:339-370 | the slots of a table in iteration order, array bucket after array bucket; a lone chain yields exactly its items |
| Chains.ChainItemsFirst | src/map.c:346-359 | the walk of a chain starts with the slots of its first bucket, from slot 0 |
| Chains.ItemsFirst | src/map.c:339-370 | iteration starts with the whole chain of array bucket 0 |
| Chains.ChainItemsUpdate | src/map.c:346-359 | replacing one bucket replaces exactly its run of slots in its chain's items |
| Chains.ChainItemsMember | src/map.c:194-214 | every item of a chain sits in some slot of some bucket of it |
| Chains.ItemsMember | src/map.c:343-366 | every item of a table sits in some chain of it |
| Chains.FindFrom | src/map.c:194-214 | the walk from (bucket k, slot i) returns an accepted slot at or after the cursor, and no slot between the cursor and the result is accepted |
| Chains.Find | map.c:140-161 | the lookup walk returns the first slot of the chain, in walk order, that the match predicate accepts, or none when no slot is accepted |
| Chains.WithRoom | src/map.c:253-264 | a full last bucket gets an empty overflow bucket linked after it; the chain's items and its earlier buckets are unchanged |
| Chains.Appended | src/map.c:253-291 | an inserted slot goes after every slot of the chain and the chain keeps at most eight slots per bucket |
| Chains.PushLast | src/map.c:287-289 | storing into the next slot of the last bucket keeps the number of buckets, gives that bucket the new payload, and adds the item at the end of the chain's walk order |
| Chains.RemoveSlot | src/map.c:304-315 | removing a slot leaves one slot fewer in the bucket |
| Chains.RemoveSlotMultiset | src/map.c:304-315 | swap-with-last removal of slot i takes exactly that slot's item out of the bucket |
| Chains.RemoveSlotMiddle | src/map.c:304-315 | removing a slot before the last moves the last slot into its place and keeps the others where they were |
| Chains.SwapRemove | src/map.c:304-315 | removing a slot of a chain by swap-with-last keeps its buckets and leaves one item fewer in its walk |
| Chains.SwapRemoveItems | src/map.c:304-315 | swap-with-last removal takes exactly the removed slot's item out of the chain's items, the others kept in some order |
| Chains.RemoveSlotKeys | src/map.c:304-315 | swap-with-last removal of slot i removes exactly that slot's key from the bucket's keys |
| Chains.RemoveSlotValues | src/map.c:304-315 | every key left after a swap-with-last removal keeps its value |
| Chains.ToMapRemoveSlot | src/map.c:304-315 | the map of a bucket after swap-with-last removal is its old map without the removed key |
| Chains.ToMapSet | src/map.c:233 | overwriting a slot with one of the same key changes only that key's value |
| Chains.SetSlot | src/strmap.c:359-362 | overwriting a found slot keeps the chain's buckets and the number of items in its walk |
| Chains.SetSlotItems | src/strmap.c:359-362 | overwriting a found slot replaces exactly the item of that slot's rank in walk order |
| Chains.DistinctCount | src/map.c:149-155 | with distinct keys the map has exactly one entry per slot |
| Chains.CountIsSize | src/map.c:149-155 | the slot count of a good table is the size of its map, so `len` is the number of keys |
| Chains.ReplaceChain | src/map.c:250-291 | replacing a chain by one placed for the same bucket, with distinct keys, keeps the table good and changes only that chain's part of the map |
| Chains.OutsideChain | src/map.c:189-192 | keys placed for chain h are held by no other chain |
| Chains.OtherChains | src/map.c:189-192 | keys held by chains other than b never select b |
| Chains.ReplaceNode | src/map.c:304-315 | replacing a bucket by one whose keys are among its own keeps keys distinct and changes only that bucket's part of the chain's map |
| Chains.NodePlaced | src/map.c:189-192 | a bucket's slots keep the placement of their chain |
| Chains.ChainPlacedUpdate | src/map.c:304-315 | a chain keeps its placement when a bucket is replaced by one whose slots are placed |
| Chains.ToMapSnoc | src/map.c:287-289 | appending an item with a new key adds exactly that entry and keeps keys distinct |
| Chains.HomeChain | src/map.c:190-192 | the chain a key's hash selects is a chain of the table |
| Chains.Lookup | src/map.c:189-217 | the walk finds a slot with the query's hash and key exactly when the key is in the map, and that slot holds the key's value |
| Chains.SlotInContents | src/map.c:219-224 | the item in any slot of a good table is an entry of its map |
| Chains.InsertNew | src/map.c:250-291 | storing an absent key after every item of its chain keeps the table good, adds exactly that entry and one slot |
| Chains.NodeKeysInChain | src/map.c:194-214 | every key of a bucket is a key of its chain |
| Chains.ReplaceInChain | src/map.c:304-315 | replacing a bucket of a chain by one placed for it, with keys among the old ones, keeps the table good and changes only that bucket's part of the map |
| Chains.Overwrite | src/strmap.c:359-362 | overwriting the value in a found slot keeps the table good and changes only that key's value |
| Chains.Remove | src/map.c:294-318 | swap-removing a slot keeps the table good, removes exactly that slot's key from the map and one slot from the count |
| Chains.NodeBounded | src/map.c:20 | a bucket of a good table holds at most eight slots, with distinct keys |
| Chains.RankSlot | src/map.c:343-359 | the slot under an iterator cursor is the item of that rank in iteration order |
| Chains.RankNextNode | src/map.c:346 | moving from the end of a bucket to the next bucket of the chain passes no item |
| Chains.RankNextChain | src/map.c:360-365 | moving from the end of a chain to the next array bucket passes no item |
| Chains.RankEnd | src/map.c:361-363 | the end of the last chain has passed every item |
| Chains.RankBound | src/map.c:343-366 | a cursor never passes more items than the table has |
| Chains.Advance | src/map.c:339-370 | the next step of an iterator reaches the slot holding the item whose rank is the number already passed, or ends past the last array bucket having passed every item |
| Chains.StartBucket | src/map.c:331-334 | a new iterator starts within the first chain, and past its last bucket (NULL) exactly when the map is empty |
| Chains.StartPassesNothing | src/map.c:320-337 | a new iterator starts inside the table and has passed no item |
| Chains.LinkEmpty | src/map.c:253-263 | linking an empty overflow bucket keeps the table good and its items unchanged |
| Chains.RoundedCapacity | src/map.c:99-104 | the rounded capacity is a positive multiple of eight that covers the request, 8 or less than the request plus 8 |
| Chains.RoundedCapacityLeast | src/map.c:99-104 | every positive multiple of eight that covers the request is at least the rounded capacity |
| Chains.RoundCapacity | map.c:49-54 | the loop `if (capacity == 0) capacity = 1; while (capacity % 8 != 0) ++capacity;` gives the rounded capacity |
| Chains.EmptyTable | src/map.c:106-121 | a new table has the given number of chains, each one empty bucket |
| Chains.EmptyTableItems | src/map.c:106-121 | a new table has no items |
| Chains.FirstChainOfEmpty | src/map.c:331-334 | a table with no items has none in its first chain |
| Chains.PrefixKeyFresh | src/strmap.c:397-401 | in a run with distinct keys, each key is new to the slots before it, so inserting them in order adds one entry each |
| Map.KeyFromCStr | src/map.c:76-83 | a string key holds the string's bytes and one NUL, the only NUL when the string has none, and the hash of the string without it |
| Map.KeyFromLiteral | include/delta/map.h:22-33 | an integer key holds no bytes and its value cast to `size_t`: itself when in range, plus 2^64 when negative |
| Map.CStrKeysEqual | src/map.c:76-83 | two string keys are the same key exactly when the strings are equal, whatever their hashes |
| Map.LiteralKeys | src/map.c:196-204 | literal keys match on the hash alone, so two integers are the same key exactly when they agree modulo 2^64, and never equal a string key |
| Map.Added | src/map.c:250-291 | adding a key keeps the number of buckets |
| Map.AddedFacts | src/map.c:250-291 | adding an absent key keeps the table good, maps the key to the value, counts one more slot, and places the slot after the existing ones of the last bucket of its chain |
| Map.AddedLinked | src/map.c:253-264 | after linking an empty bucket behind a full last bucket, an added key goes into the new bucket |
| Map.AddedWith | src/map.c:265-291 | the added table, spelled out: the new slot is pushed onto the chain with room, and the key bytes are appended to that bucket's buffer |
| Map.Doubled | src/map.c:239-241 | a doubled capacity stays a multiple of eight covering the buckets, needs no rounding, and the copy it sizes has room for the pending insertion |
| Map.Reassigned | src/map.c:177 | a second assignment to the same key replaces the first |
| Map.CopyRoom | src/map.c:166-178 | while a map is copied, the copy never reaches the growth threshold |
| Map.GrowthInsertAsWritten | src/map.c:236-291 | the as-written insertion after growth leaves the copy as the live table unchanged, with its length one more, and writes into the deleted table, which keeps its bucket count |
| Map.GrowthInsertLands | src/map.c:246-291 | the slot written after growth adds the key with its value, exactly, to the deleted table |
| Map.GrowthLosesKey | src/map.c:246-250 | after the as-written growth insertion the live map does not hold the key and its length counts one more slot than it has |
| Map.Map.constructor | src/map.c:92-97 | the header fields take the given values, with len 0 and valid true |
| Map.Map.Make | src/map.c:85-124 | NULL on a failed allocation; otherwise an empty valid map, capacity rounded up to a positive multiple of 8, capacity / 8 empty buckets |
| Map.Map.IsValid | src/map.c:126-132 | the transparent body `m != null && m.valid` is the statement (false for NULL, the map's flag otherwise); the contract adds that a true answer implies a map |
| Map.Map.Len | src/map.c:149-155 | 0 for NULL, otherwise the number of keys the map holds |
| Map.Map.Locate | src/map.c:189-217 | the walk finds a slot exactly when the key is in the map, and that slot holds the key and its value |
| Map.Map.At | src/map.c:219-224 | the value mapped at the key, or NULL exactly when the key is absent |
| Map.Map.Assign | src/map.c:177 | writing through a value slot changes only that key's value |
| Map.Map.Get | src/map.c:226-292 | a present key returns its slot with nothing changed; an absent key is added with a zero value, after growth to twice the capacity when overloaded; a failed allocation returns NULL, marks the map invalid and keeps the mapping |
| Map.Map.AddSlot | src/map.c:250-291 | a new slot in the last bucket of the chain, or in a newly linked one, holds the key with a zero value; a failure marks the map invalid with the mapping unchanged |
| Map.Map.Place | src/map.c:265-291 | the next slot of the last bucket takes the key's hash and a zero value and the key bytes are appended to the bucket's buffer; a failed resize marks the map invalid |
| Map.Map.LinkBucket | src/map.c:253-263 | an overflow bucket is linked after the chain's last one; a failure marks the map invalid and keeps its entries |
| Map.Map.Grow | src/map.c:239-248 | the capacity doubles, also when the copy fails; the map takes over a copy with the same mapping and capacity / 8 buckets; a failed copy marks it invalid and keeps its entries |
| Map.Map.Erase | src/map.c:294-318 | false and nothing changed for an absent key; otherwise true, the key removed, the last slot moved into the erased one, len one less, key buffers unchanged |
| Map.Map.Put | src/map.c:172-177 | inserting an absent key below the threshold and copying the value maps the key to the value and adds one to len |
| Map.Map.CopyNext | src/map.c:166-178 | one turn of the copy loop inserts the iterator's entry and advances the iterator |
| Map.Map.Copy | src/map.c:157-181 | NULL on failure; otherwise a new valid map of the same capacity with the same mapping and length |
| Map.Map.Fill | src/map.c:166-180 | the copy loop inserts every remaining entry, so the copy ends with the original's mapping |
| Map.Iterator.constructor | src/map.c:320-337 | a new iterator is invalid and has passed no entry |
| Map.Iterator.Next | src/map.c:339-370 | true with the entry of the next rank in iteration order, or false and invalid once every entry is passed, and again on every later call |
| StrMap.ValuesKeys | src/strmap.c:293-303 | the values' map has the cells' keys, one value per cell |
| StrMap.StoredUpdate | src/strmap.c:374-376 | storing a key whose bytes are in the arena keeps every key stored |
| StrMap.StoredRemove | src/strmap.c:315-321 | removing a key keeps every other key stored |
| StrMap.StoredKey | src/strmap.c:477 | a mapped key is a C string in the arena at its offset, with a value of `value_size` bytes |
| StrMap.ValuesUpdate | src/strmap.c:359-361 | setting a key's cell sets its value |
| StrMap.ValuesRemove | src/strmap.c:315-321 | removing a key's cell removes its value |
| StrMap.StoredExtend | src/strmap.c:342-344 | bytes appended to the arena leave every stored key where it was |
| StrMap.Packed | src/strmap.c:397-401 | the arena after k insertions of the rehash loop holds at least one byte per key and ends with a key's NUL |
| StrMap.PackedKeyAt | src/strmap.c:397-401 | later insertions leave each packed key, with its NUL, at the offset where it was written |
| StrMap.Fitted | src/strmap.c:335-340 | the doubled arena capacity holds the needed bytes, never shrinks, and is kept when it already fits or is less than twice the need |
| StrMap.FittedDoubles | src/strmap.c:335-340 | the capacity reached is the starting capacity times a power of two |
| StrMap.Added | src/strmap.c:363-382 | adding a key keeps the number of buckets |
| StrMap.AddedFacts | src/strmap.c:363-382 | adding an absent key keeps the table good, maps the key to its cell and counts one more slot |
| StrMap.AddedLinked | src/strmap.c:365-373 | after linking an empty bucket behind a full last bucket, an added key goes into the new bucket |
| StrMap.OneSlotTable | src/strmap.c:256-278 | a table of one bucket holding one slot is good and maps exactly that key |
| StrMap.OneSlotItems | src/strmap.c:473-481 | a table of one bucket holding one slot yields exactly that slot |
| StrMap.PrefixIs | src/strmap.c:256-262 | the as-written strncmp match accepts every slot the whole-key match accepts (and more, as PrefixMatchFindsLongerKey shows) |
| StrMap.PrefixMatchFindsLongerKey | src/strmap.c:260 | with "ab" and "abc" hashing alike, the as-written match finds the slot of "abc" for the absent key "ab" |
| StrMap.StartBucketAsWritten | strmap.c:416-431 | on a non-empty map strmap.c starts from the first array bucket, as the corrected start does; on an empty map from whatever the unset pointer holds |
| StrMap.UnsetStartEscapes | strmap.c:416-431 | for an empty map, an unset start bucket gives a cursor outside the table, while the NULL start is inside it and has passed nothing |
| StrMap.PlaceKeeps | src/strmap.c:374-381 | placing an absent key in the free slot of its chain's last bucket, with its bytes appended to the arena, keeps the invariant and maps the key to its cell |
| StrMap.StrMap.constructor | src/strmap.c:171-192 | the fields take the given values, with len 0 and an empty arena of 1024 bytes |
| StrMap.StrMap.Make | src/strmap.c:163-205 | NULL on a failed allocation; otherwise an empty map, capacity rounded up to a positive multiple of 8, capacity / 8 empty buckets, empty 1024-byte arena |
| StrMap.StrMap.Len | src/strmap.c:233-236 | the number of keys the map holds |
| StrMap.StrMap.LenOrZero | strmap.c:210-216 | 0 for NULL, otherwise the number of keys |
| StrMap.StrMap.FindBucketPos | strmap.c:225-258 | found exactly when the key is in the map, at a slot holding it; otherwise the position just past the used slots of the chain's last bucket |
| StrMap.StrMap.At | src/strmap.c:281-291 | the value mapped at the key, or NULL exactly when it is absent |
| StrMap.StrMap.Get | src/strmap.c:293-303 | 1 exactly when the key is mapped; the value is copied into `v` only when found and `v` is not NULL |
| StrMap.StrMap.Erase | src/strmap.c:305-324 | 0 and nothing changed for an absent key; otherwise 1, the key removed, the last slot moved into the erased one, len one less, the arena unchanged |
| StrMap.StrMap.AppendKey | src/strmap.c:331-347 | the key and its NUL are written at the old arena length, which is returned, after doubling the capacity until they fit; earlier bytes are unchanged; a failed realloc loses the arena |
| StrMap.StrMap.LinkBucket | src/strmap.c:365-372 | an overflow bucket is linked after the chain's last one; a failure leaves the mapping unchanged |
| StrMap.StrMap.Place | src/strmap.c:374-382 | the next slot takes the key's hash, value and arena offset, and len grows by one; a failed arena growth keeps the entries |
| StrMap.StrMap.Assign | src/strmap.c:359-362 | copying the value into a found slot changes only that key's value |
| StrMap.StrMap.AddKey | src/strmap.c:363-382 | an absent key is added with its value and its bytes appended to the arena; a failure keeps the mapping |
| StrMap.StrMap.Insert | src/strmap.c:353-383 | a present key's value is overwritten with len and arena unchanged; an absent key is added, len one more; NULL on failure with the mapping unchanged |
| StrMap.StrMap.Rehash | src/strmap.c:390-406 | NULL on failure; otherwise a map of twice the capacity with the same mapping, whose arena holds only the live keys in iteration order |
| StrMap.StrMap.Fill | src/strmap.c:397-401 | the rehash loop inserts every entry, giving the old mapping and a packed arena |
| StrMap.StrMap.RehashStep | src/strmap.c:397-401 | one turn of the rehash loop inserts the next entry, or stops having inserted all |
| StrMap.StrMap.InsertYielded | src/strmap.c:398 | inserting the entry just yielded extends the new map by that entry |
| StrMap.StrMap.InsertPassed | src/strmap.c:398 | after inserting entry i the new map holds the first i + 1 entries and their keys packed in order |
| StrMap.StrMap.Addp | src/strmap.c:408-420 | the result maps the key to the value; it is the same map unless the load exceeded 6.5, then a fresh map of twice the buckets; NULL on failure |
| StrMap.ValuesStep | src/strmap.c:397-401 | the values of the first i + 1 entries are those of the first i plus the next key, which is new |
| StrMap.NextEntry | src/strmap.c:477-478 | the entry of rank i of a valid map has a C string key and a value of `value_size` bytes, and a key new to the entries before it |
| StrMap.Iterator.constructor | src/strmap.c:452-468 | a new iterator is inside the map and has passed no entry |
| StrMap.Iterator.Next | src/strmap.c:470-490 | 1 with the entry of the next rank, or 0 once every entry is passed, and again on every later call |
| LegacyMap.Djb2From | map.c:113-122 | the empty string leaves the running value as it is; one `char` c takes it to h · 33 + c modulo 2^64 |
| LegacyMap.Djb2 | map.c:113-122 | djb2 from 5381: the hash of a string is that of all but its last char, times 33, plus the last char, modulo 2^64 |
| LegacyMap.SignedChar | map.c:115-118 | a `char` byte read as signed lies in [-128, 128) and agrees with the byte modulo 256 |
| LegacyMap.Djb2Concat | map.c:113-122 | hashing a concatenation carries the running value from the first part into the second |
| LegacyMap.Djb2Short | map.c:113-122 | the empty string hashes to 5381, a one-char string to 5381 · 33 + c |
| LegacyMap.FitsKey | map.c:246-248 | a mapped key is a C string with a value of `value_size` bytes |
| LegacyMap.FitsUpdate | map.c:246-248 | storing a C string key with a value of `value_size` bytes keeps every entry fitting |
| LegacyMap.FitsRemove | map.c:189-195 | removing a key keeps every entry fitting |
| LegacyMap.Added | map.c:235-251 | adding a key keeps the number of buckets |
| LegacyMap.PlaceKeeps | map.c:246-250 | placing an absent key in the free slot of its chain's last bucket keeps the invariant and maps the key to its value |
| LegacyMap.LowBytes | map.c:271-282 | the value cast to `value_size` bytes has that many bytes |
| LegacyMap.Pow256 | map.c:271-282 | 256^n is positive |
| LegacyMap.LowBytesRoundTrip | map.c:271-282 | reading the stored bytes back gives the value modulo 2^(8n): truncation is the only loss |
| LegacyMap.LegacyMap.constructor | map.c:56-60 | the fields take the given values, with len 0 |
| LegacyMap.LegacyMap.Make | map.c:40-74 | NULL on a failed allocation; otherwise an empty map, capacity rounded up to a positive multiple of 8, capacity / 8 empty buckets |
| LegacyMap.LegacyMap.LenOrZero | map.c:100-106 | 0 for NULL, otherwise the number of keys |
| LegacyMap.LegacyMap.FindBucketPos | map.c:131-162 | the hash is djb2; found exactly when the key is in the map, at a slot holding it; otherwise the position just past the used slots of the chain's last bucket |
| LegacyMap.LegacyMap.Get | map.c:164-178 | 1 exactly when the key is mapped; the value is copied into `v` only when found and `v` is not NULL |
| LegacyMap.LegacyMap.Contains | map.h:37 | true exactly when the key is mapped |
| LegacyMap.LegacyMap.Erase | map.c:180-198 | 0 and nothing changed for an absent key; otherwise 1, the key removed, the last slot moved into the erased one, len one less |
| LegacyMap.LegacyMap.LinkBucket | map.c:237-244 | an overflow bucket is linked after the chain's last one; on failure nothing changes |
| LegacyMap.LegacyMap.Assign | map.c:231-233 | copying the value into a found slot changes only that key's value |
| LegacyMap.LegacyMap.Place | map.c:246-251 | the next slot takes the value, hash and key; len grows by one and the key maps to the value |
| LegacyMap.LegacyMap.Put | map.c:231-251 | a present key's value is overwritten; an absent key is added, len one more; false when an overflow bucket cannot be allocated, with nothing changed |
| LegacyMap.LegacyMap.Each | map.c:289-317 | the callback receives every slot once, in bucket, chain and slot order; for a valid map that is one call per key, with the map's value |
| LegacyMap.LegacyMap.Rehash | map.c:205-215 | the same handle gets twice the capacity and buckets and is no longer overloaded, keeping the mapping unless a store in the replay failed; on failure nothing changes |
| LegacyMap.LegacyMap.StoreAll | map.c:200-203 | storing each entry in turn gives their map, less any entry whose store failed |
| LegacyMap.LegacyMap.Store | map.c:217-252 | the load check runs before the lookup; the key then maps to the value and the rest of the mapping is kept, less any entry a rehash lost |
| LegacyMap.LegacyMap.Add | map.c:254-287 | the value cast to `value_size` bytes is stored under the key, and reads back as the value modulo 2^(8 · value_size) |
| LegacyMap.DoubledCapacity | map.c:206 | doubling a capacity that is a positive multiple of eight needs no rounding and doubles the buckets |
| LegacyMap.VisitsFit | map.c:304-317 | every entry a valid map hands to the callback has a C string key and a value of `value_size` bytes |
| LegacyMap.ScenarioKeysDiffer | test/slice_test.c:174-191 | the scenario's keys are pairwise different C strings |
| LegacyMap.MapIntMake | test/slice_test.c:170-171 | a map of 4-byte ints asked for capacity 20 has three buckets and length 0 |
| LegacyMap.MapIntStoresFirst | test/slice_test.c:173-176 | storing zero=0 and ten=10 gives length 2 |
| LegacyMap.MapIntStoresThird | test/slice_test.c:177-178 | storing three=3 gives length 3 |
| LegacyMap.MapIntAdds | test/slice_test.c:180-183 | three becomes 33 and "forty two" is added with 42, length 4 |
| LegacyMap.MapIntErasures | test/slice_test.c:185-189 | erasing "five" fails, erasing "zero" succeeds, length 3 |
| LegacyMap.MapIntReads | test/slice_test.c:191-201 | "vincent" is absent; ten, three and "forty two" read back 10, 33 and 42 |
| Vec.Half | vec.h:30-43 | 2^(8·size − 1) is positive for each element size 1, 2, 4, 8 |
| Vec.Narrow | src/vec.c:86-107 | the cast value lies in the element type's range and agrees with the `long long` modulo 2^(8·size) |
| Vec.NarrowKeeps | src/vec.c:86-107 | a value that already fits the element type is stored unchanged |
| Vec.NarrowLongLong | src/vec.c:101-102 | an eight-byte element stores every `long long` as is |
| Vec.Narrowed | src/vec.c:86-108 | each argument is cast in place, in order |
| Vec.Doubled | src/vec.c:53-56 | doubling from a positive capacity reaches at least `need`, keeps a capacity that already fits, and otherwise stays below twice `need` |
| Vec.Grown | src/vec.c:45-62 | the capacity vec_grow_to_fit leaves is at least 1 and holds the needed elements |
| Vec.GrownLeast | src/vec.c:45-62 | the grown capacity fits `need`, never shrinks, is kept when it fits, and otherwise is below twice `need` |
| Vec.GrowthAsWritten | src/vec.c:45-62 | as written, realloc is called exactly when the doubling loop runs, not after the raise of 0 to 1 alone |
| Vec.GrowthAsWrittenOverruns | src/vec.c:50-60 | appending one element to a vec made with capacity 0 leaves a header claiming one element over an allocation of none |
| Vec.GrowthAsWrittenPositive | src/vec.c:45-62 | from a positive capacity the code as written reallocates exactly as needed |
| Vec.BackIndexAsWritten | src/vec.c:163-171 | as written, the index of the last element is len − 1 in `size_t` arithmetic |
| Vec.BackOfEmptyOverruns | src/vec.c:170 | for an empty vec that index wraps to 2^64 − 1 and its byte offset to −elem_size: the pointer returned is `data - elem_size`, inside the vec's own 24-byte header for elements no wider than it |
| Vec.SubCountAsWritten | src/vec.c:173-209 | the length vec_sub copies as written is positive and starts inside the vec, and with a negative end it stays inside |
| Vec.SubCountAsWrittenOverReads | src/vec.c:184-201 | a positive end past the length passes every test: length 1, start 0, end 2 copies two elements |
| Vec.SubCount | src/vec.c:173-209 | the corrected range always lies inside the vec, and agrees with the code wherever the code's range does |
| Vec.SubNegativeEnd | vec.h:85-87 | an end of −m selects the same range as the end len − m + 1 |
| Vec.SubInside | vec.h:78-84 | a range 0 ≤ start < end ≤ len selects end − start elements |
| Vec.SubScenario | test/test.c:33-47 | on 21 ints, ends −2 and 20 from 10 give ten elements, and the ranges (4, 2), (30, 31), (3, −50) give NULL |
| Vec.Vec.Elements | src/vec.c:9-13 | a vec's elements are its first `len` buffer cells |
| Vec.Vec.constructor | src/vec.c:17-25 | vec_make stores len, capacity and elem_size, and the first `len` elements are zero |
| Vec.Vec.LenOrZero | src/vec.c:36-43 | 0 for NULL, otherwise the number of elements |
| Vec.Vec.GrowToFit | src/vec.c:45-62 | afterwards `n` more elements fit, the capacity is the doubled one, and the elements are unchanged |
| Vec.Vec.Reallocate | src/vec.c:58 | realloc gives a buffer of the new capacity holding the old elements |
| Vec.Vec.AppendN | src/vec.c:116-140 | the values are appended in order after the existing elements, which stay unchanged |
| Vec.Vec.Pop | src/vec.c:142-152 | an empty vec stays empty; otherwise the last element is dropped and the rest unchanged |
| Vec.Vec.Clear | src/vec.c:154-161 | no element is left |
| Vec.Vec.Back | vec.h:73-76 | the last element, or NULL exactly when the vec is empty |
| Vec.Vec.Sub | src/vec.c:173-209 | NULL for a NULL vec or a range SubCount refuses; otherwise a fresh vec holding source elements [start, start + k) |
| Vec.AppendNV | src/vec.c:64-114 | the arguments, each cast to the element size, are appended in order after the existing elements |
| Vec.IntScenario | test/test.c:14-31 | ten elements 0..9 and eleven appends of 10..20 leave the 21 values 0..20 in order |
| Sort.Swap | src/vec.c:232-236 | the three-memcpy swap exchanges two elements and keeps the multiset and everything after n |
| Sort.StepKeeps | src/vec.c:230-237 | under a strict order, one inner step keeps the settled prefix and keeps element i the least so far |
| Sort.Settle | src/vec.c:230-238 | the inner loop permutes the elements, calls less(j, i) only with i < j < len, and settles position i |
| Sort.ExchangeSort | sort.c:26-36 | the nested loops permute the elements, call less(j, i) only with i < j < len, and under a strict order leave no element less than one before it |
| Sort.SortAny | src/vec.c:212-240 | a NULL vec is left alone; otherwise the elements are permuted, and ordered under a strict order |
| Sort.IntLessStrict | src/vec.c:248-255 | `<` on integers is a strict order |
| Sort.SortInts | src/vec.c:260-267 | the integer wrappers leave the elements permuted in ascending order |
| Sort.StrLess | src/vec.c:258 | strcmp(a, b) < 0 implies the strings differ |
| Sort.StrLessTransitive | src/vec.c:258 | the strcmp order is transitive |
| Sort.StrLessTotal | src/vec.c:258 | of two different strings one is strcmp-less than the other |
| Sort.StrLessStrict | src/vec.c:258 | the strcmp order is a strict order |
| Sort.SortCStrings | src/vec.c:270 | vec_sort_cstrings leaves the strings permuted in strcmp order |
| Qex.Render | test/qex/qex.c:123-126 | a rendering is a non-empty digit string |
| Qex.DecimalRender | test/qex/qex.c:123-126 | reading a rendering back gives the number |
| Qex.SkipBlanks | test/qex/qex.c:121 | the blank-skipping loop stops inside the string |
| Qex.DigitsEnd | test/qex/qex.c:123 | the digit loop stops inside the string |
| Qex.ReadInt | test/qex/qex.c:118-133 | toint stops inside the string, and yields 0 when it does not move |
| Qex.NumberDecimal | test/qex/qex.c:123-126 | the value accumulated digit by digit is the decimal value of the digits read |
| Qex.Number | test/qex/qex.c:123-126 | the value toint's loop accumulates: 0 when no digit is read, a lone digit's value for one |
| Qex.NumberBound | test/qex/qex.c:123-126 | a run of n digits reads as a value in [0, 10^n) |
| Qex.DigitsEndAt | test/qex/qex.c:123 | a digit run followed by a non-digit is the run the loop reads |
| Qex.ReadIntDigits | test/qex/qex.c:118-133 | a digit string followed by a non-digit is read as its decimal value, stopping just after it |
| Qex.ReadIntRender | test/qex/qex.c:118-133 | toint on a number's rendering, followed by a non-digit, gives the number back |
| Qex.ToInt | test/qex/qex.c:118-133 | the two loops compute ReadInt's value and stop position |
| Qex.Scan | test/qex/qex.c:141-159 | the fields stay numbers or −1, and `end` is set inside the string |
| Qex.Parsed | test/qex/qex.c:135-169 | parse_range of a non-NULL string fills six fields, each a number or −1, with `end` inside the string |
| Qex.ParseRange | test/qex/qex.c:135-169 | the loop over six fields gives Parsed |
| Qex.Joined | test/qex/qex.c:141-158 | the join of the digit runs, each followed by its separator, is as long as the runs plus one separator each |
| Qex.Decimals | test/qex/qex.c:142 | one value per digit string |
| Qex.JoinedTokens | test/qex/qex.c:142-158 | a join written in the string is read token by token, each token stopping on its separator |
| Qex.ScanJoinedStep | test/qex/qex.c:142-158 | a field followed by a separator is read as its value, and the scan goes on after the separator |
| Qex.ScanJoinedLast | test/qex/qex.c:141-162 | the sixth field is read and `end` is left at its separator |
| Qex.ScanJoined | test/qex/qex.c:141-162 | the remaining fields, digit strings each followed by a separator, are read as their values, `end` at the last separator |
| Qex.ParseTimestamp | test/qex/qex.c:207-215 | a line starting `<YEAR>-<MONTH>-<DAY> <HOUR>:<MIN>:<SEC>\t` reads as the six values, with `end` on the tab |
| Qex.JoinedLast | test/qex/qex.c:162 | the last character of a join is its last separator |
| Qex.YearWildcard | test/qex/qex.c:143-147 | "2019-*" gives year 2019 and −1 for the five other fields |
| Qex.IsEqualAsWritten | test/qex/qex.c:197-204 | qex_is_equal as written: a line passes only when each field, as an unsigned 32-bit value, is at most the user's |
| Qex.SubsetBelow | test/qex/qex.c:198-203 | a field whose bits are a subset of the user's is at most the user's |
| Qex.Matches | test/qex/qex.c:197-204 | the intended test: a line matches its own timestamp, an all-wildcard range matches every line, and a set year must be the line's |
| Qex.AllOnes | test/qex/qex.c:198 | the wildcard −1 has all 32 bits set, so it passes the written test for any line |
| Qex.MatchesAsWritten | test/qex/qex.c:197-204 | every intended match passes the written test |
| Qex.YearRangeMatches | test/qex/qex.c:197-204 | under the intended test a year-only range accepts exactly the lines of that year |
| Qex.CountsAsWritten | test/qex/qex.c:234-240 | a query the intended test counts is counted as written too; a 2019 line under the user year 2023 is counted only as written |
| Qex.IsEqualAsWrittenSubset | test/qex/qex.c:197-204 | the written test accepts a 2019 line for the user year 2023, which the intended test rejects |
| Qex.QueryEnd | test/qex/qex.c:221-223 | the query ends at the first '\n', '\r' or NUL |
| Qex.EolEnd | test/qex/qex.c:227-230 | the end-of-line run stops at a character that is neither '\n' nor '\r' |
| Qex.Blanked | test/qex/qex.c:227-230 | the buffer with [a, b) overwritten by NUL, everything else unchanged |
| Qex.SkipBlanksInside | test/qex/qex.c:121 | in a NUL-terminated buffer the blank loop stops before the end |
| Qex.DigitsEndInside | test/qex/qex.c:123 | in a NUL-terminated buffer the digit loop stops before the end |
| Qex.ScanInside | test/qex/qex.c:141-162 | in a NUL-terminated buffer parse_range leaves `end` inside the buffer |
| Qex.FindQueryEnd | test/qex/qex.c:221-224 | the query loop stops at QueryEnd, inside the buffer |
| Qex.BlankEol | test/qex/qex.c:227-230 | each '\n' and '\r' from the query end on becomes NUL; the loop stops at EolEnd |
| Qex.NulAtQueryEnd | test/qex/qex.c:236-237 | the NUL that ends the key lands where the blanked buffer already holds one |
| Qex.Bump | test/qex/qex.c:237-239 | the counts after a query is seen have the old keys plus the query, whose count is positive |
| Qex.BumpCounts | test/qex/qex.c:235-239 | the key's count, 0 when absent, rises by exactly one; every other query's count is unchanged |
| Qex.Qex.constructor | test/qex/qex.c:186-190 | the user's range is parsed (all −1 for a NULL range) and no query is counted |
| Qex.Qex.IndexTsvLine | test/qex/qex.c:206-244 | NULL and no change unless a tab follows the timestamp; otherwise the EOL run becomes NUL, the query's count rises by 1 exactly when the range matches, and the result is past the EOL run or NULL at the end |
| Qex.Qex.IndexTsvLineAsWritten | test/qex/qex.c:206-244 | as IndexTsvLine, but the query is counted when qex_is_equal's bit-subset test passes |
| Qex.Qex.IndexQuery | test/qex/qex.c:218-243 | the query runs to its end, the EOL run becomes NUL, a matched query is counted once more, and the result is past the EOL run or NULL at the end |

## Left out

- The Murmur hash of `src/strmap.c` and `src/hash.c` is a function-valued parameter. Its body depends on the word size and the host byte order, and callers rely only on its determinism.
- The allocator (`src/allocator.c`) is a may-fail step with no outcome fixed. Failures are modelled only where the code reports them through NULL, a validity flag or a 0 result.
- Memory layout is not modelled: the header before the data, pointer casts, `memcpy` byte copies, and the `*_del` functions with the leaks in `strmap.c` and `map.c`.
- `map_print_internals`, qex's CLI and I/O (`usage`, `help`, `parse_options`, `main`), `build_most_popular_queries_set`, `print_nth_most_popular_queries` and the `_popular_queries` map are output code, not part of this model.
- The load factor test `len / nb_buckets > 6.5` is modelled as the exact integer test `2 * len > 13 * nb_buckets`. `src/map.c` and `src/strmap.c` divide in `double`, which agrees with it while nb_buckets stays below 2^50. `map.c` and `strmap.c` divide in `float`, which rounds the quotient to 6.5, and so skips the rehash, once nb_buckets reaches 2^21 + 1: for example nb_buckets 2097153 with len 13631495. Map.Map.Get, StrMap.StrMap.Addp and LegacyMap.LegacyMap.Store grow at the exact threshold.
- Map.Map.Place: when resizing the key buffer fails, the source has already counted the slot (`len + 1`) and returns the value pointer. The model returns None and leaves the slot out, marking the map invalid.
- Map.Map.Get: after growth the slot is looked up again in the copy. The source writes through a bucket of the deleted map, as GrowthLosesKey states.
- The vec functions `src/map.c` relies on (`vec_make_alloc_impl`, `vec_resize_impl`) are only declared in `include/delta/vec.h`. The key and value buffers are modelled as sequences that obey those declarations.
- StrMap.StrMap.FindBucketPos compares whole keys, as `strmap.c` does. The prefix match of `src/strmap.c:260` is modelled apart, in PrefixIs.
- StrMap.StrMap's `intact` flag marks a map half-updated by a failed insertion: the arena set to NULL by a failed `realloc` (src/strmap.c:335-340), or an overflow bucket linked before its initialisation failed. The insertions (AddKey, Insert, Addp) require it. The lookups (Len, FindBucketPos, At, Get), Erase and the iterator do not check it and answer from the table and the arena as last known, whereas the source would read through the NULL arena. include/delta/strmap.h:54-55 asks callers not to use such a map. `strmap.c`'s unset iterator bucket is modelled apart, by StartBucketAsWritten and UnsetStartEscapes.
- `strmap_addv` and `map_add` narrowing: StrMap models the insert on the already-cast value bytes, and LegacyMap.LegacyMap.Add models the cast.
- Key offsets in `strmap.c` are `int`, not `size_t`. The model does not bound them.
- LegacyMap.LegacyMap.LinkBucket: on a failed allocation `map.c` has already stored NULL (or an uninitialised bucket) in `b->next`. The model leaves the chain as it was.
- `map_store`'s use of `strdup` is unchecked; the model assumes the copy succeeds.
- LegacyMap.Djb2 and LegacyMap.SignedChar assume a platform where `char` is signed and `unsigned long` is 64 bits wide (LP64 on x86-64, for example). With an unsigned `char` the bytes would enter the hash as 0..255, and with a 32-bit `unsigned long` the hash would wrap modulo 2^32.
- Vec: `vec_pop`, `vec_clear`, `vec_len` and `vec_back` on NULL are modelled only where the class type allows (LenOrZero, Sort.SortAny); Pop, Clear and Vec.Vec.Back take a vec, so `vec_back(NULL)` returning NULL (src/vec.c:166-168) is not modelled. `vec_make` requires `len <= capacity`, which its callers meet; `realloc` and `malloc` are not checked for NULL, as in the source.
- Vec.Vec.GrowToFit reallocates also after the raise of 0 to 1 alone. The code as written does not, and GrowthAsWritten models it.
- `size_t` and `int` widths in `vec_sub` (an end beyond `INT_MAX`, a length that overflows `int`) and `int` overflow in `toint` are not modelled: values are unbounded.
- Qex.ToInt: `toint`'s NULL-string branch is left out, since no caller passes NULL. A NULL range for `parse_range` is modelled by the constructor's None case.
- Qex.Qex.IndexTsvLine counts a query by the intended test Qex.Matches, not by `qex_is_equal`'s bit-subset test (test/qex/qex.c:197-204, 234), so it does not count lines outside the user's range that the source counts. Qex.Qex.IndexTsvLineAsWritten counts as the source does.
- Qex.Qex.IndexTsvLine and Qex.Qex.IndexTsvLineAsWritten: `strmap_addv`'s failure path is not modelled; the counts are a Dafny map.
- Qex.Qex.IndexQuery reads the key bytes before the end-of-line loop. The source reads them after it; the loop does not touch them, so the result is the same.
- The float and double comparators (`floats_less`, `doubles_less`) are not modelled. Comparators are functions of the two elements they compare.
- `slice.c` is the same code as `src/vec.c` under `slice_*` names (`slice_addn` is `vec_appendnv`, `slice_storen` is `vec_appendnp`). The rows cite `src/vec.c` only.
- Map.Map.Copy: the failure of an iterator step (`!it.valid`) never happens on a valid map, and the model does not include it.

## Findings

| source | as written | input that shows it | evidently intended | confidence | as-written member | corrected member |
|---|---|---|---|---|---|---|
| src/map.c:246-250 | after growth, the new slot is written through `bp.prev`, a bucket of the map just deleted, while the copy's length grows by one | inserting an absent key into a map with more than 6.5 keys per bucket | look the key's bucket up again in the copy and insert there | not executed | Map.GrowthLosesKey | Map.Map.Get |
| src/vec.c:50-60 | a capacity of 0 is raised to 1 without reallocating | `vec_make(sizeof(char*), 0, 0)` then `vec_appendv`, as `parse_options` does at test/qex/qex.c:101-103 | reallocate whenever the capacity changes | not executed | Vec.GrowthAsWrittenOverruns | Vec.Vec.GrowToFit |
| src/vec.c:163-171 | no empty check: the index `(len - 1) * elem_size` wraps | `vec_back` on a vec of length 0 | return NULL, as vec.h:73-76 promises | not executed | Vec.BackOfEmptyOverruns | Vec.Vec.Back |
| src/vec.c:184-201 | a positive end past the length is accepted | `vec_sub` on a vec of length 1 with start 0 and end 2 | return NULL for a range that is not inside the vec | not executed | Vec.SubCountAsWrittenOverReads | Vec.Vec.Sub |
| src/strmap.c:260 | `strncmp` over the query's length matches any stored key that the query is a prefix of | a map holding "abc", looked up with "ab", under a hash that gives both the same value | compare the whole stored key | not executed | StrMap.PrefixMatchFindsLongerKey | StrMap.StrMap.FindBucketPos |
| strmap.c:416-431 | `_b` is never set when the map is empty, and `strmap_next` reads it | `strmap_iterator` on an empty map, then `strmap_next` | set `_b` to NULL, as src/strmap.c:461 does | not executed | StrMap.UnsetStartEscapes | StrMap.Iterator.constructor |
| test/qex/qex.c:197-204 | each field passes when the line's bits are a subset of the user's | user range year 2023, line 2019-01-01 00:00:00 | each field equal, or the user's is the wildcard −1 | not executed | Qex.IsEqualAsWrittenSubset | Qex.Qex.IndexTsvLine |
