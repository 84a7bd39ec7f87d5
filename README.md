# AlfLibCpp core, modelled in Dafny

This project models the self-contained logic of AlfLibCpp, a C++ utility library, and proves
properties of that model. The library pieces modelled are:

- the Robin Hood hash map `RobinHoodMap` (open addressing over a flat bucket array);
- the growable `ArrayList` buffer;
- the integer helpers `Min`, `Max`, `IsPowerOfTwo` and `AlignPowerOfTwo`;
- the byte swaps `SwapEndian`;
- the binary serialisation of `MemoryWriter` and `MemoryReader`: little-endian integers, and
  lists framed by a u64 element count;
- the UTF-8 `String`, which keeps its bytes and a cached codepoint count;
- the `Path` type built on `String`;
- the pixel-format arithmetic of `Image`.

Each source component is one Dafny module in one file:

| file | module | source |
|---|---|---|
| common.dfy | Common | integer widths and `Option`, shared by all modules |
| math.dfy | Math | include/alflib/math/math.hpp |
| memory.dfy | Memory | include/alflib/memory/memory.hpp |
| array_list.dfy | ArrayLists | include/alflib/collection/array_list.hpp |
| robin_hood_map.dfy | RobinHood | include/alflib/collection/robin_hood_map.hpp |
| little_endian.dfy | LittleEndian | the byte layout of include/alflib/memory/memory_writer.hpp |
| memory_writer.dfy | MemoryWriters | source/alflib/memory/memory_writer.cpp, include/alflib/memory/memory_writer.hpp |
| memory_reader.dfy | MemoryReaders | include/alflib/memory/memory_reader.hpp |
| utf8.dfy | Utf8 | the `alfUTF8*` codec that string.cpp calls (RFC 3629, section 3) |
| string.dfy | Strings | include/alflib/string.hpp, source/alflib/string.cpp |
| path.dfy | Paths | source/alflib/file/path.cpp |
| image.dfy | Images | source/alflib/graphics/image.cpp |

Code that changes state in place is modelled as imperative Dafny:
- `ArrayList` is a class over an `array` with `size` and `capacity` fields.
- `RobinHoodMap` is a class over an array of buckets, and its probe loop is a `while` loop.
- `MemoryWriter` and `MemoryReader` are classes with a buffer and an offset.
- `String` and `Path` are classes whose methods reassign the byte sequence.
- `Image` is a class.

Each method is proved against a specification function on the old state. The properties that
relate several calls are proved as lemmas about those functions. The pure helpers are
functions and lemmas.

Calls into code that is not part of this model are given as parameters:
- the key hash of the map is a function parameter `hash: K -> u32`;
- the `Buffer` class of the writer and reader is a byte sequence;
- the `alfUTF8*` codec is a UTF-8 decoder and encoder written out from RFC 3629, section 3.


## Model

| member | source | states |
|---|---|---|
| ArrayLists.GrownCapacity | include/alflib/collection/array_list.hpp:734-741 | a full list grows strictly: to twice a nonzero capacity, and to 10 from capacity 0 |
| ArrayLists.ArrayList.WithCapacity | include/alflib/collection/array_list.hpp:355-364 | the capacity constructor makes an empty list with exactly the requested capacity |
| ArrayLists.ArrayList.FromList | include/alflib/collection/array_list.hpp:368-380 | the initializer-list constructor holds the list's elements in order, with capacity equal to their number |
| ArrayLists.ArrayList.Copy | include/alflib/collection/array_list.hpp:384-396 | the copy constructor makes a fresh buffer of the same capacity holding the same elements |
| ArrayLists.ArrayList.Move | include/alflib/collection/array_list.hpp:399-409 | the move constructor takes over the buffer, elements and capacity, and leaves the other list empty with capacity 0 |
| ArrayLists.ArrayList.Reserve | include/alflib/collection/array_list.hpp:628-644 | a larger capacity gives a fresh buffer of that size with the same elements; otherwise nothing changes |
| ArrayLists.ArrayList.CheckCapacityToAdd | include/alflib/collection/array_list.hpp:734-741 | afterwards there is room for one more element; the capacity grows as GrownCapacity says only when the list was full, so the index Append then writes at is in bounds (AppendInBounds of the old capacity and size) |
| ArrayLists.ArrayList.Append | include/alflib/collection/array_list.hpp:461-477 | the elements become the old ones followed by the new one; the capacity grows only when the list was full, and size <= capacity still holds |
| ArrayLists.ArrayList.Prepend | include/alflib/collection/array_list.hpp:492-518 | corrected Prepend, with its shift loop counting down: the new element followed by the old ones |
| ArrayLists.PrependShiftIterationsAsWritten | include/alflib/collection/array_list.hpp:497 | the shift loop as written starts at size - 1 in u64 arithmetic and counts up: from a nonzero start i it runs 2^64 - i times before the counter wraps to 0 |
| ArrayLists.PrependOnTwoElementsNeverFinishes | include/alflib/collection/array_list.hpp:492-503 | as written, prepending to a list of two elements runs the shift loop 2^64 - 1 times |
| ArrayLists.ArrayList.RemoveAt | include/alflib/collection/array_list.hpp:538-553 | Remove(index) with index < size deletes exactly that position and keeps the buffer and capacity |
| ArrayLists.ArrayList.Remove | include/alflib/collection/array_list.hpp:557-591 | Remove(object) deletes the first element equal to the object, and changes nothing when there is none |
| ArrayLists.FirstIndexOf | include/alflib/collection/array_list.hpp:559-571 | the index the removal loop stops at: an occurrence with no earlier occurrence |
| ArrayLists.FirstIndexIsFirst | include/alflib/collection/array_list.hpp:559-571 | an occurrence with no earlier occurrence is the one the removal loop stops at |
| ArrayLists.ArrayList.ResizeAsWritten | include/alflib/collection/array_list.hpp:595-624 | Resize as written: size n, the old elements then defaults in the buffer, but a resize beyond the capacity leaves capacity < size |
| ArrayLists.StaleCapacityOverflowsOnAppend | include/alflib/collection/array_list.hpp:617-622 | after the as-written Resize(20) of a default list, the next Append writes past the end of its grown buffer |
| ArrayLists.ArrayList.Resize | include/alflib/collection/array_list.hpp:595-624 | corrected Resize: size n, the first min(size, n) old elements then defaults, and the capacity is kept at least n |
| ArrayLists.ResizedContents | include/alflib/collection/array_list.hpp:600-622 | the elements after Resize(n): position i holds the old element below the old size and the default value above it |
| ArrayLists.ArrayList.Shrink | include/alflib/collection/array_list.hpp:648-667 | a smaller capacity c keeps the first min(size, c) elements in a fresh buffer of c; otherwise nothing changes |
| ArrayLists.ArrayList.ShrinkToFit | include/alflib/collection/array_list.hpp:671-676 | the elements stay and the capacity becomes the size |
| ArrayLists.ArrayList.Contains | include/alflib/collection/array_list.hpp:680-690 | true exactly when some element equals the object |
| ArrayLists.ArrayList.At | include/alflib/collection/array_list.hpp:694-702 | for index < size, the element at that position |
| ArrayLists.ArrayList.Set | include/alflib/collection/array_list.hpp:718-722 | assignment through operator[] replaces only the element at the index |
| RobinHood.IsTombstone | include/alflib/collection/robin_hood_map.hpp:226-231 | a bucket is a tombstone exactly when bit 31 of its hash is 1 |
| RobinHood.Live | include/alflib/collection/robin_hood_map.hpp:183-205 | a bucket holds an entry, being neither empty (hash 0) nor a tombstone, exactly when its hash is in [1, 2^31) |
| RobinHood.Home | include/alflib/collection/robin_hood_map.hpp:176 | the home bucket `hash mod n` is a valid index |
| RobinHood.DistanceIsModularDifference | include/alflib/collection/robin_hood_map.hpp:235-241 | DistanceFromIndex equals the source's `(index + n - hash mod n) mod n`, which is `(index - hash mod n) mod n`, and it is 0 exactly at the home bucket |
| RobinHood.DistanceFromIndex | include/alflib/collection/robin_hood_map.hpp:235-241 | the distance from the home bucket is below the bucket count |
| RobinHood.PosSucc | include/alflib/collection/robin_hood_map.hpp:217 | the step `index = (index + 1) mod n` moves the walk one step on from its home |
| RobinHood.DistanceOfWalk | include/alflib/collection/robin_hood_map.hpp:197-218 | the bucket d steps from an entry's home is at distance d from that home |
| RobinHood.EntriesUpdate | include/alflib/collection/robin_hood_map.hpp:189-191 | overwriting one bucket trades its stored pair for the new bucket's |
| RobinHood.EntriesMembership | include/alflib/collection/robin_hood_map.hpp:80-85 | a (key, value) pair is stored exactly when some live bucket holds it |
| RobinHood.EntriesBound | include/alflib/collection/robin_hood_map.hpp:80-85 | never more stored pairs than buckets |
| RobinHood.EntriesOfEmptyTable | include/alflib/collection/robin_hood_map.hpp:136-137 | a table of zeroed buckets stores nothing |
| RobinHood.EmptyBucketExists | include/alflib/collection/robin_hood_map.hpp:179-194 | without tombstones and with fewer entries than buckets, some bucket is empty, which is where the probe loop can stop |
| RobinHood.Find | include/alflib/collection/robin_hood_map.hpp:179-185 | the probe for a stored key: a bucket it returns holds the key's hash and the key |
| RobinHood.FindLocates | include/alflib/collection/robin_hood_map.hpp:179-185 | in a table with the Robin Hood invariant, the probe from an entry's home finds that entry |
| RobinHood.LookupIffEntry | include/alflib/collection/robin_hood_map.hpp:179-185 | in a table with the invariant, the lookup gives value x for a key exactly when (key, x) is stored |
| RobinHood.AbsentIfNotFound | include/alflib/collection/robin_hood_map.hpp:179-185 | a key the lookup does not find is stored in no bucket |
| RobinHood.KeysAreUnique | include/alflib/collection/robin_hood_map.hpp:179-219 | in a table with the invariant no key is stored in two buckets |
| RobinHood.StoreKeepsOrder | include/alflib/collection/robin_hood_map.hpp:188-213 | storing the carried entry where its probe path ends, in an empty bucket or over a resident nearer its home, keeps every entry reachable |
| RobinHood.StoreKeepsTable | include/alflib/collection/robin_hood_map.hpp:188-213 | the same store keeps the whole table invariant: reachability, no tombstones, and hashes matching keys |
| RobinHood.SwapKeepsInvariant | include/alflib/collection/robin_hood_map.hpp:207-218 | a swap with a resident nearer its home keeps the invariant, and the walk then carries the resident one step further |
| RobinHood.Finish | include/alflib/collection/robin_hood_map.hpp:183-205 | the three returns of the loop body return the bucket the loop stands on |
| RobinHood.Advance | include/alflib/collection/robin_hood_map.hpp:197-218 | a loop step that does not return keeps the table size and the probe state well formed |
| RobinHood.AdvanceFrame | include/alflib/collection/robin_hood_map.hpp:197-218 | a loop step writes at most the bucket it stands on |
| RobinHood.SwapOnlyWithRicher | include/alflib/collection/robin_hood_map.hpp:197-218 | a swap happens only with a resident strictly nearer its home; the carried distance then continues from the resident's distance, otherwise from its own, one step further |
| RobinHood.Walk | include/alflib/collection/robin_hood_map.hpp:179-219 | the probe loop returns the bucket its step count reaches, and the key's slot is the first bucket a swap stored it in |
| RobinHood.WalkStops | include/alflib/collection/robin_hood_map.hpp:179-219 | with an empty bucket ahead, the loop returns before going round the table |
| RobinHood.FoundIsReturned | include/alflib/collection/robin_hood_map.hpp:183-185 | when the probe finds the key, the loop returns its bucket and changes nothing |
| RobinHood.WalkFrame | include/alflib/collection/robin_hood_map.hpp:179-219 | the loop changes only the buckets it walked over |
| RobinHood.WalkPlacesKey | include/alflib/collection/robin_hood_map.hpp:188-213 | for a key not stored, the bucket the key is first stored in ends up holding the key, its hash and the carried value |
| RobinHood.WalkInserts | include/alflib/collection/robin_hood_map.hpp:179-219 | on a key not stored, the loop adds an entry and the table invariant still holds |
| RobinHood.AdvanceTradesEntry | include/alflib/collection/robin_hood_map.hpp:207-218 | a swap trades the carried pair for the stored pair, keeping the multiset of all pairs |
| RobinHood.WalkAddsEntry | include/alflib/collection/robin_hood_map.hpp:179-219 | a loop that adds an entry adds exactly the carried pair to the stored pairs |
| RobinHood.Subscript | include/alflib/collection/robin_hood_map.hpp:166-222 | operator[] on a table keeps its size, and the key's slot is a bucket of it |
| RobinHood.SubscriptFound | include/alflib/collection/robin_hood_map.hpp:183-185 | for a stored key, operator[] returns that key's bucket and changes no bucket |
| RobinHood.SubscriptInserts | include/alflib/collection/robin_hood_map.hpp:174-219 | for a key not stored, with an empty bucket left: the walk stops within one round, adds exactly (key, default value), keeps the invariant, stores the key in its slot, and changes only the buckets it walked over |
| RobinHood.SubscriptStores | include/alflib/collection/robin_hood_map.hpp:166-222 | afterwards the key is stored in its slot and the invariant holds; the stored pairs grow by (key, default value) exactly when the key was missing |
| RobinHood.SubscriptIsIdempotent | include/alflib/collection/robin_hood_map.hpp:183-185 | repeating operator[] for a key changes nothing more, so GetSize() does not change either |
| RobinHood.SubscriptCounts | include/alflib/collection/robin_hood_map.hpp:192-203 | the entry count grows by one exactly when operator[] added a pair |
| RobinHood.SetValueKeepsTable | include/alflib/collection/robin_hood_map.hpp:184 | writing through the returned reference changes a value, never the order of hashes and keys |
| RobinHood.PutTable | tests/test_robin_hood_map.cpp:45-51 | `map[key] = v` keeps the table size |
| RobinHood.PutStores | tests/test_robin_hood_map.cpp:45-59 | after `map[key] = v` (written to the key's slot) the lookup of key gives v, the lookup of every other key is unchanged, the invariant holds, and the size grows only for a new key |
| RobinHood.WriteValueStores | tests/test_robin_hood_map.cpp:45-59 | writing v into the key's bucket after operator[] makes the lookup give v and keeps other keys' lookups |
| RobinHood.WriteValueFinds | tests/test_robin_hood_map.cpp:53-59 | writing v into a key's bucket makes the lookup of the key give v |
| RobinHood.OtherKeyUnchanged | include/alflib/collection/robin_hood_map.hpp:179-219 | tables whose stored pairs differ only in pairs of other keys give the same lookup for a key |
| RobinHood.SwapScenarioIsValid | include/alflib/collection/robin_hood_map.hpp:80-85 | the scenario table (keys 1, 5 and 2 under the identity hash) satisfies the invariant and does not store 9 |
| RobinHood.ReturnedSlotAfterSwap | include/alflib/collection/robin_hood_map.hpp:207-219 | as written, operator[](9) in the scenario stores 9 in bucket 3, moves 2 on to bucket 0, and returns bucket 0, which holds key 2 |
| RobinHood.LoadFactorReached | include/alflib/collection/robin_hood_map.hpp:113 | for a nonempty table the integer test `5 * size >= 4 * capacity` holds exactly when `size / capacity >= 0.8` in exact division |
| RobinHood.BelowLoadFactorHasRoom | include/alflib/collection/robin_hood_map.hpp:170-172 | below the load factor 0.8 (as `5 * size < 4 * capacity`) some bucket is empty |
| RobinHood.BelowCapacityHasRoom | include/alflib/collection/robin_hood_map.hpp:179-194 | with fewer entries than buckets some bucket is empty |
| RobinHood.DefaultLoadFactorLimit | include/alflib/collection/robin_hood_map.hpp:170-172 | the default map of 32 buckets reaches the load limit at its 26th entry |
| RobinHood.DefaultCapacityIsPowerOfTwo | include/alflib/collection/robin_hood_map.hpp:55-56 | the default bucket count meets the constructor's power-of-two requirement |
| RobinHood.RobinHoodMap.constructor | include/alflib/collection/robin_hood_map.hpp:124-138 | requires a power-of-two count; every bucket has hash 0, the size is 0 and the invariant holds |
| RobinHood.RobinHoodMap.GetSize | include/alflib/collection/robin_hood_map.hpp:111 | the number of stored pairs, never more than the bucket count |
| RobinHood.RobinHoodMap.Resize | include/alflib/collection/robin_hood_map.hpp:245-248 | Resize, whose body is empty, leaves the size and every bucket as they were |
| RobinHood.RobinHoodMap.Access | include/alflib/collection/robin_hood_map.hpp:166-222 | operator[]: the buckets become the outcome of Subscript, the returned and key slots are its own, and the size grows by one exactly when a pair was added |
| RobinHood.RobinHoodMap.ProbeLoop | include/alflib/collection/robin_hood_map.hpp:174-219 | the while loop from the home bucket leaves exactly the outcome of Walk |
| RobinHood.RobinHoodMap.Visit | include/alflib/collection/robin_hood_map.hpp:180-218 | one loop iteration: on a return the buckets are the Finish table; otherwise the probe state is the Advance state |
| RobinHood.RobinHoodMap.Put | tests/test_robin_hood_map.cpp:45-51 | `map[key] = v` with the value written into the bucket of the key: the buckets become PutTable and the size grows only for a new key |
| Math.Min | include/alflib/math/math.hpp:45-50 | the minimum is one of its arguments and no larger than either |
| Math.Max | include/alflib/math/math.hpp:61-66 | the maximum is one of its arguments and no smaller than either |
| Math.And | include/alflib/math/math.hpp:78 | bitwise AND on naturals is no larger than either operand |
| Math.AndSelf | include/alflib/math/math.hpp:78 | `x & x == x` |
| Math.PowerOfTwoIff | include/alflib/math/math.hpp:75-79 | `value && !(value & value - 1)` holds exactly for 2^k with k < 64, and so not for 0 |
| Math.PowerPassesTest | include/alflib/math/math.hpp:78 | every power of two passes the bit test |
| Math.Exponent | include/alflib/math/math.hpp:78 | a nonzero value passing the bit test is a power of two |
| Math.AlignClearsLowBits | include/alflib/math/math.hpp:97-102 | with `-alignment` negated in u32 and zero-extended, the result is the low 32 bits of the wrapped sum `base + alignment - 1` with the bits below the alignment cleared |
| Math.AlignPowerOfTwo | include/alflib/math/math.hpp:89-104 | the result always fits in 32 bits and is no larger than the wrapped sum `base + alignment - 1` it masks |
| Math.AlignIsAligned | include/alflib/math/math.hpp:89-104 | the result is always a multiple of the alignment |
| Math.AlignRoundsUp | include/alflib/math/math.hpp:89-104 | while `base + alignment - 1 < 2^32`, the result is at least base |
| Math.AlignStaysClose | include/alflib/math/math.hpp:89-104 | while `base + alignment - 1 < 2^32`, the result is below `base + alignment` |
| Math.AlignedBaseIsFixed | include/alflib/math/math.hpp:89-104 | a 32-bit base that is already a multiple of the alignment is returned unchanged |
| Math.AlignIsIdempotent | include/alflib/math/math.hpp:89-104 | aligning an aligned result again gives the same value |
| Math.HighBitsAreLost | include/alflib/math/math.hpp:97-102 | beyond 32 bits the high bits of the base are lost: 2^32 aligned to 1 gives 0 |
| Memory.Reversed | include/alflib/memory/memory.hpp:43-81 | position i of the reversal holds position length - 1 - i |
| Memory.Swap16ReversesOctets | include/alflib/memory/memory.hpp:43-47 | the 16-bit swap reverses the sequence of the value's two bytes |
| Memory.SwapEndian16 | include/alflib/memory/memory.hpp:43-47 | byte 0 of the result is byte 1 of the value and byte 1 is byte 0 |
| Memory.Swap32ReversesOctets | include/alflib/memory/memory.hpp:56-61 | the 32-bit swap reverses the sequence of the value's four bytes |
| Memory.SwapEndian32 | include/alflib/memory/memory.hpp:56-61 | byte i of the result is byte 3 - i of the value |
| Memory.Swap64ReversesOctets | include/alflib/memory/memory.hpp:70-81 | the 64-bit swap reverses the sequence of the value's eight bytes |
| Memory.SwapEndian64 | include/alflib/memory/memory.hpp:70-81 | byte i of the result is byte 7 - i of the value |
| Memory.Swap16IsInvolution | include/alflib/memory/memory.hpp:43-47 | swapping a u16 twice gives it back |
| Memory.Swap32IsInvolution | include/alflib/memory/memory.hpp:56-61 | swapping a u32 twice gives it back |
| Memory.Swap64IsInvolution | include/alflib/memory/memory.hpp:70-81 | swapping a u64 twice gives it back |
| Memory.Swap16FixesUniformBytes | include/alflib/memory/memory.hpp:43-47 | a u16 whose bytes are equal is its own swap |
| Memory.Swap32FixesUniformBytes | include/alflib/memory/memory.hpp:56-61 | a u32 whose bytes are all equal is its own swap |
| Memory.Swap64FixesUniformBytes | include/alflib/memory/memory.hpp:70-81 | a u64 whose bytes are all equal is its own swap |
| Memory.ZeroAndOnesAreFixed | include/alflib/memory/memory.hpp:43-81 | 0 and the all-ones value of each width are fixed points |
| LittleEndian.ModulusIsPow256 | include/alflib/memory/memory_writer.hpp:101-155 | each integer kind has 256^width bit patterns |
| LittleEndian.DecodeEncodeNat | include/alflib/memory/memory_writer.hpp:45-47 | base-256 digits, least significant first, read back to the number |
| LittleEndian.EncodeDecodeNat | include/alflib/memory/memory_writer.hpp:45-47 | every digit sequence is the encoding of the number read from it |
| LittleEndian.ToUnsigned | include/alflib/memory/memory_writer.hpp:101-155 | the two's-complement bit pattern of a value is below the kind's modulus |
| LittleEndian.FromUnsigned | include/alflib/memory/memory_reader.hpp:64-86 | the value with a given bit pattern is in the kind's range |
| LittleEndian.Encode | include/alflib/memory/memory_writer.hpp:101-155 | an integer is written as exactly its width in bytes, least significant first, whatever the host order |
| LittleEndian.Decode | include/alflib/memory/memory_reader.hpp:64-86 | the integer read from exactly its width in bytes is in its kind's range |
| LittleEndian.DecodeEncode | include/alflib/memory/memory_writer.hpp:101-155 | reading back a written integer of any kind gives the integer |
| LittleEndian.EncodeDecode | include/alflib/memory/memory_reader.hpp:64-86 | every byte pattern of the right width is the encoding of the value read from it |
| LittleEndian.EncodeIsInjective | include/alflib/memory/memory_writer.hpp:101-155 | different values of a kind are written as different bytes |
| LittleEndian.SpanIsProduct | include/alflib/memory/memory_writer.hpp:231-233 | n elements take n times the width |
| LittleEndian.EncodeInts | include/alflib/memory/memory_writer.hpp:231-233 | the element encodings of a list take Span bytes |
| LittleEndian.DecodeInts | include/alflib/memory/memory_reader.hpp:119-121 | n elements read from the front of the bytes are n values in range |
| LittleEndian.EncodeList | include/alflib/memory/memory_writer.hpp:226-234 | a written list takes 8 bytes of count plus its elements |
| LittleEndian.DecodeEncodeInts | include/alflib/memory/memory_reader.hpp:119-121 | n elements read from their encodings, whatever follows them, are the elements |
| LittleEndian.DecodeIntsCons | include/alflib/memory/memory_reader.hpp:119-121 | reading one more element over an encoding reads that element first |
| LittleEndian.DecodeEncodeList | include/alflib/memory/memory_reader.hpp:112-123 | reading a written list back gives its count, then its elements |
| LittleEndian.EncodeIntsAppend | include/alflib/memory/memory_writer.hpp:231-233 | the encoding of a concatenation is the concatenation of the encodings |
| LittleEndian.EncodeIntsSnoc | include/alflib/memory/memory_writer.hpp:231-233 | writing one more element appends its encoding |
| MemoryWriters.Resized | source/alflib/memory/memory_writer.cpp:52-54 | Buffer::Resize(n) keeps the first min(size, n) bytes, then zero bytes up to n |
| MemoryWriters.Overwritten | source/alflib/memory/memory_writer.cpp:57 | Buffer::Write puts the data at the offset and keeps every other byte |
| MemoryWriters.MemoryWriter.constructor | source/alflib/memory/memory_writer.cpp:38-44 | requires a buffer size above zero; a new writer has a buffer of that size and has written nothing |
| MemoryWriters.MemoryWriter.WriteBytes | source/alflib/memory/memory_writer.cpp:48-59 | the written bytes become the old ones followed by the data; the offset advances by the data's length; the buffer doubles exactly when the write did not fit, and otherwise keeps its size; the doubling is exact in integers, where the source's f32 product rounds large sizes |
| MemoryWriters.MemoryWriter.WriteInt | include/alflib/memory/memory_writer.hpp:101-155 | writing an integer appends its little-endian bytes |
| MemoryWriters.MemoryWriter.WriteList | include/alflib/memory/memory_writer.hpp:226-234 | writing a list appends its u64 count and then every element in order |
| MemoryWriters.MemoryWriter.WriteElements | include/alflib/memory/memory_writer.hpp:231-233 | the element loop appends the elements' encodings in list order |
| MemoryWriters.MemoryWriter.WriteNext | include/alflib/memory/memory_writer.hpp:232 | one turn of the loop appends element i after elements 0 to i - 1 |
| MemoryReaders.MemoryReader.constructor | include/alflib/memory/memory_reader.hpp:50-59 | a new reader starts at offset 0 |
| MemoryReaders.MemoryReader.ReadInt | include/alflib/memory/memory_reader.hpp:64-86 | the integer whose little-endian bytes start at the offset; the offset moves past them |
| MemoryReaders.MemoryReader.ReadArrayList | include/alflib/memory/memory_reader.hpp:112-123 | a u64 count n, then n elements into a fresh list of size n; the offset moves past all of them |
| MemoryReaders.MemoryReader.ReadElements | include/alflib/memory/memory_reader.hpp:119-121 | the loop fills the list with the elements decoded from the offset on |
| MemoryReaders.MemoryReader.ReadNext | include/alflib/memory/memory_reader.hpp:120 | one turn of the loop reads element i into list[i] |
| MemoryReaders.ElementsAtAreDecodeInts | include/alflib/memory/memory_reader.hpp:119-121 | reading elements in place from an offset gives what decoding the bytes from that offset gives |
| MemoryReaders.ElementIsAt | include/alflib/memory/memory_reader.hpp:119-121 | element i of a list is read from start + i times the width |
| MemoryReaders.WriteThenReadList | tests/test_mem_read_write.cpp:71-95 | a list written by a default writer and read from the start of its buffer comes back element for element |
| Utf8.Width | source/alflib/string.cpp:390-394 | the width of a codepoint is at most 4 bytes, and 0 exactly above U+10FFFF |
| Utf8.EncodeScalar | source/alflib/string.cpp:70-80 | the encoding of a scalar value has its width, a zero lead byte only for NUL, and continuation bytes after the lead |
| Utf8.Encode | source/alflib/string.cpp:218-229 | encoding succeeds exactly for scalar values, giving as many bytes as the width |
| Utf8.DecodeAt | source/alflib/string.cpp:128-142 | a successful decode gives a scalar value of 1 to 4 bytes inside the buffer, NUL exactly for a zero byte, and a nonzero last byte otherwise |
| Utf8.DecodeEncode | source/alflib/string.cpp:128-142 | decoding the encoding of a scalar value, wherever it sits, gives the value and its width |
| Utf8.EncodeDecode | source/alflib/string.cpp:128-142 | the decoder accepts only shortest forms: the bytes decoded are exactly the encoding of the value returned |
| Utf8.Scan | source/alflib/string.cpp:38-41 | the codepoints counted are scalar values other than NUL |
| Utf8.ScanStep | source/alflib/string.cpp:38-41 | scanning past a decoded codepoint other than NUL puts it before the rest |
| Utf8.ScanStop | source/alflib/string.cpp:38-41 | scanning stops at NUL or at a malformed sequence |
| Utf8.Codepoints | source/alflib/string.cpp:38-41 | the codepoints of a string, read through its NUL-terminated form, are NUL-free scalar values |
| Utf8.EncodeText | source/alflib/string.cpp:70-80 | an encoded text has at least one byte per codepoint |
| Utf8.ScanEncodeText | source/alflib/string.cpp:38-41 | scanning an encoded text, placed anywhere and followed by NUL, gives the text back |
| Utf8.CodepointsOfEncodeText | source/alflib/string.cpp:38-41 | reading back the encoding of a text gives the text, so the encoding is well-formed |
| Utf8.WellFormedIff | source/alflib/string.cpp:38-41 | the bytes read back whole are exactly the encodings of texts |
| Utf8.EncodeTextAppend | source/alflib/string.cpp:257-262 | the encoding of a concatenation is the concatenation of the encodings |
| Utf8.WellFormedAppend | source/alflib/string.cpp:257-262 | two well-formed strings concatenate to a well-formed string holding both texts |
| Utf8.ScanBound | source/alflib/string.cpp:38-41 | every codepoint scanned takes at least one byte before the terminator |
| Utf8.Length | include/alflib/string.hpp:287-297 | the UTF-8 length of a string, its number of codepoints, never exceeds its byte count |
| Utf8.AtIndex | source/alflib/string.cpp:275-279 | below the length the codepoint at an index is a nonzero scalar value; from the length on it is 0 |
| Utf8.AtIndexOfEncodeText | source/alflib/string.cpp:275-279 | indexing the encoding of a text gives the text's codepoints |
| Utf8.FirstIndex | source/alflib/string.cpp:158-162 | -1 exactly when the codepoint is absent; otherwise an index holding it with none before it |
| Utf8.LastIndex | source/alflib/string.cpp:166-170 | -1 exactly when the codepoint is absent; otherwise an index holding it with none after it |
| Utf8.Substring | source/alflib/string.cpp:236-253 | the codepoints of the result are those of the string from `from` for `count`, both clamped to the end |
| Utf8.SubstringFrom | source/alflib/string.cpp:243-245 | the codepoints of the result are those of the string from `from` to the end, empty past the end |
| Utf8.SubstringIsInfix | source/alflib/string.cpp:236-253 | on a well-formed string a substring is a run of its bytes |
| Utf8.EncodeThree | source/alflib/string.cpp:236-253 | cutting a text in three cuts its encoding in three |
| Utf8.FirstCodepoint | source/alflib/string.cpp:174-178 | the first codepoint is cp exactly when the string starts with the encoding of cp, a NUL-free scalar value |
| Utf8.LastCodepoint | source/alflib/string.cpp:182-198 | decoding where cp's encoding would start at the end gives cp exactly when the string ends with that encoding |
| Utf8.NoNulInEncodeText | source/alflib/string.cpp:70-80 | an encoded text holds no zero byte |
| Utf8.LastAscii | source/alflib/string.cpp:182-198 | a text whose encoding ends in an ASCII byte ends with that codepoint |
| Strings.UpToNul | source/alflib/string.cpp:70-80 | the NUL-terminated view is the longest NUL-free prefix: it stops at the first zero byte |
| Strings.UpToNulOfNulFree | source/alflib/string.cpp:38-41 | a NUL-free byte string reads back whole through its NUL-terminated view |
| Strings.ConcatCount | source/alflib/string.cpp:257-262 | for well-formed strings the count of a concatenation is the u32 sum of the counts, so `+=` and `+` agree |
| Strings.FindFrom | source/alflib/string.cpp:146-154 | -1, or an offset at or after the start where the substring occurs |
| Strings.FindFromFirst | source/alflib/string.cpp:146-154 | -1 exactly when nothing occurs from the start on, and otherwise no occurrence comes before the one found |
| Strings.ReplaceAt | source/alflib/string.cpp:207-210 | one replacement changes the size by the difference of the two sizes |
| Strings.ReplaceAtProgress | source/alflib/string.cpp:205-212 | when `to` is shorter than `from`, or `from` is one byte not in `to`, every step of the loop decreases a measure |
| Strings.ReplaceAllSize | source/alflib/string.cpp:202-214 | of the bytes and step count ReplaceAll gives: a `to` shorter than `from` shrinks the bytes by at least one per step, so there are at most as many steps as bytes; one of the same size keeps the size; a longer one grows it by at least one per step |
| Strings.ReplaceAllResult | source/alflib/string.cpp:202-214 | afterwards `from` does not occur; no step is taken exactly when it did not occur, and then nothing changes |
| Strings.SubstituteAppend | source/alflib/string.cpp:218-232 | substituting a byte distributes over concatenation |
| Strings.SubstituteFixes | source/alflib/string.cpp:218-232 | substituting a byte that does not occur changes nothing |
| Strings.FindByte | source/alflib/string.cpp:146-154 | the first occurrence of a byte found has no earlier occurrence, and none found means it does not occur |
| Strings.SubstituteStep | source/alflib/string.cpp:207-211 | one step on a single byte keeps the substitution of the whole and removes one occurrence |
| Strings.ReplaceByte | source/alflib/string.cpp:218-232 | replacing a single byte by bytes without it replaces every occurrence and takes one step per occurrence |
| Strings.ReplaceAllAt | source/alflib/string.cpp:205-212 | one loop step replaces the first occurrence found and counts one more step |
| Strings.ReplaceEmptyIsFixedPoint | source/alflib/string.cpp:205-212 | an empty `from` is found at offset 0, and replacing it by empty bytes leaves the string as it was |
| Strings.String.constructor | source/alflib/string.cpp:63-66 | the bytes are kept and the length is their UTF-8 length, truncated to u32 |
| Strings.String.FromCodepoint | source/alflib/string.cpp:70-80 | the bytes are the encoding of the codepoint, empty for NUL; the length is 1, which agrees with the bytes exactly when the codepoint is not NUL |
| Strings.String.Copy | source/alflib/string.cpp:83-93 | bytes and length carry over |
| Strings.String.Assign | source/alflib/string.cpp:104-126 | bytes and length are those of the other string |
| Strings.String.Size | include/alflib/string.hpp:287-297 | the byte count is never below the length while the length is up to date |
| Strings.String.Length | include/alflib/string.hpp:287 | GetLength: while the cached length is up to date and fits in a u32, it is the number of codepoints |
| Strings.String.At | source/alflib/string.cpp:275-279 | the codepoint at a codepoint index, a nonzero scalar value, and 0 at or past the end |
| Strings.String.AtByteOffset | source/alflib/string.cpp:128-142 | -1 with the width unchanged exactly when no codepoint decodes there; otherwise a scalar value whose encoding is the bytes at the offset |
| Strings.String.Find | source/alflib/string.cpp:146-154 | -1 exactly when the substring does not occur; otherwise the smallest offset where it does |
| Strings.String.IndexOf | source/alflib/string.cpp:158-162 | -1 exactly when the codepoint is absent; otherwise the index of its first occurrence |
| Strings.String.LastIndexOf | source/alflib/string.cpp:166-170 | -1 exactly when the codepoint is absent; otherwise the index of its last occurrence |
| Strings.String.StartsWith | source/alflib/string.cpp:174-178 | true exactly when the bytes start with the encoding of the codepoint, a NUL-free scalar value |
| Strings.String.EndsWith | source/alflib/string.cpp:182-198 | true exactly when the bytes end with the encoding of the codepoint, a scalar value |
| Strings.String.Substring | source/alflib/string.cpp:236-253 | the codepoints of the result are those from `from` for `count`, clamped, with `(u64)-1` meaning to the end |
| Strings.String.Append | source/alflib/string.cpp:257-262 | the bytes are appended and the lengths added in u32 arithmetic; for well-formed strings with lengths up to date the result is well-formed and up to date |
| Strings.String.AppendUtf8 | source/alflib/string.cpp:266-271 | the bytes are appended and their UTF-8 length added; well-formedness and an up-to-date length are kept |
| Strings.String.Replace | source/alflib/string.cpp:202-214 | the bytes are those ReplaceAll leaves and the count is its step count in u32; `from` no longer occurs, and nothing changes when it did not occur |
| Strings.String.ReplaceStep | source/alflib/string.cpp:205-212 | one iteration keeps the loop invariant, counts one step and decreases the measure |
| Strings.String.ReplaceOnce | source/alflib/string.cpp:208-210 | the bytes become those of one step of ReplaceAll |
| Strings.String.Recount | source/alflib/string.cpp:318-322 | the assigned string's length is recounted from its bytes |
| Strings.String.Remove | source/alflib/string.cpp:218-232 | nothing changes and 0 is returned when the codepoint cannot be encoded or is NUL; otherwise every occurrence of its encoding is removed and the steps counted; for ASCII the count is the number of occurrences |
| Strings.String.ForEach | include/alflib/string.hpp:329-350 | one call per codepoint, in order, each with its index as u32 |
| Strings.Numbered | include/alflib/string.hpp:329-350 | each codepoint is paired with its index as u32 |
| Strings.Traverse | include/alflib/string.hpp:334-348 | the calls of the decode loop are the numbered codepoints scanned from the start |
| Strings.TraverseStep | include/alflib/string.hpp:336-347 | one iteration moves past the decoded codepoint and records one call |
| Strings.Plus | source/alflib/string.cpp:318-322 | a fresh string of both byte strings with its length counted afresh, the u32 sum of the lengths for well-formed strings |
| Strings.HashedBytes | include/alflib/string.hpp:378-385 | for a well-formed string the hash sees all of its bytes |
| Strings.Equals | source/alflib/string.cpp:342-346 | equal strings hash alike and, with lengths up to date, have the same length |
| Strings.NotEquals | source/alflib/string.cpp:366-370 | `!=` is the negation of `==` |
| Utf8.Widen | source/alflib/string.cpp:38-41 | ASCII bytes read one for one as codepoints |
| Utf8.AsciiText | tests/test_string.cpp:40-53 | a NUL-free ASCII string is well-formed with one codepoint per byte |
| Utf8.HelloLength | tests/test_string.cpp:56-58 | "hellö!" has length 6 and size 7 |
| Utf8.SmileyLength | tests/test_string.cpp:64-66 | U+1F603 has length 1 and size 4 |
| Utf8.SmileysLength | tests/test_string.cpp:67-76 | a run of n U+1F603 has length n and size 4n; 200 of them, 200 and 800 |
| Utf8.SmileySubstrings | tests/test_string.cpp:161-164 | substrings of "😃,😃" by codepoint index, clamped at the end, are those the tests expect |
| Paths.FixAll | source/alflib/file/path.cpp:230-238 | every codepoint is kept except that `\` becomes `/` |
| Paths.SubstituteScalar | source/alflib/file/path.cpp:230-238 | replacing the byte `\` in the encoding of a codepoint replaces the codepoint `\` |
| Paths.SubstituteText | source/alflib/file/path.cpp:230-238 | FixSeparators on an encoded text gives the encoding of the text with `\` read as `/` |
| Paths.FixedIsText | source/alflib/file/path.cpp:230-238 | afterwards a well-formed path is still well-formed, has the same size, holds no `\`, and holds the fixed codepoints |
| Paths.SubstituteLength | source/alflib/file/path.cpp:230-238 | FixSeparators keeps the byte count and leaves no `\` |
| Paths.NormalizeUnfold | source/alflib/file/path.cpp:55-64 | the constructor fixes the separators and then drops one trailing `/` |
| Paths.NormalizeFacts | source/alflib/file/path.cpp:55-64 | a normalised path holds no `\` and is one byte shorter exactly when the fixed string ends with `/` |
| Paths.NormalizeExamples | tests/test_path.cpp:39-64 | "./" becomes ".", "../" becomes "..", and "this/is/a\path" and "this\is\a\path" both become "this/is/a/path" |
| Paths.NormalizeBytewise | source/alflib/file/path.cpp:55-64 | the constructor's result in terms of the path with every `\` replaced byte by byte |
| Paths.SubstituteFixedBytes | source/alflib/file/path.cpp:230-238 | FixSeparators replaces `\` by `/` at every byte position and changes nothing else |
| Paths.Split | source/alflib/file/path.cpp:127-142 | a path has at least one component |
| Paths.SplitCount | source/alflib/file/path.cpp:127-142 | there is one more component than there are separators |
| Paths.SplitHasNoSeparator | source/alflib/file/path.cpp:127-142 | no component holds a separator |
| Paths.SeparatorsAreSeparators | source/alflib/file/path.cpp:134 | the codepoints between components are separators of either kind |
| Paths.SplitRebuilds | source/alflib/file/path.cpp:127-142 | interleaving the components with the separators rebuilds the path |
| Paths.SplitJoin | source/alflib/file/path.cpp:127-142 | the components of two paths joined by `/` are those of the first followed by those of the second |
| Paths.SplitSnoc | source/alflib/file/path.cpp:133-139 | one more codepoint either opens a new empty component (a separator) or extends the last one |
| Paths.LastComponentIsSuffix | source/alflib/file/path.cpp:146-158 | the last component is a separator-free suffix of the path right after a separator |
| Paths.LastComponentAfterLastSeparator | source/alflib/file/path.cpp:148 | the last component starts just after the larger of the last indices of `/` and `\` |
| Paths.IntendedExtension | source/alflib/file/path.cpp:186-194 | the intended extension is empty or a `.` followed by at least one codepoint, and a suffix of the last component |
| Paths.Path.constructor | source/alflib/file/path.cpp:55-64 | for a well-formed string with its length up to date, the path holds the normalised bytes and its length stays up to date |
| Paths.Path.TrimSeparator | source/alflib/file/path.cpp:60-63 | one trailing `/` is dropped through Substring, and the cached length stays up to date |
| Paths.DropTrailing | source/alflib/file/path.cpp:61 | with separators fixed, the string ends with a separator of either kind exactly when its last byte is `/` |
| Paths.TrailingSubstring | source/alflib/file/path.cpp:62 | the substring the constructor keeps is the string without its last byte, still well-formed |
| Paths.TrailingSlash | source/alflib/file/path.cpp:62 | dropping the last codepoint of a well-formed string ending in `/` drops its last byte |
| Paths.Path.Copy | source/alflib/file/path.cpp:88-94 | the copy owns its own string with the same bytes and length |
| Paths.Path.FixSeparators | source/alflib/file/path.cpp:230-238 | every `\` byte becomes `/`, and an up-to-date length stays up to date |
| Paths.Path.Join | source/alflib/file/path.cpp:68-76 | the other path is appended, with a `/` between them unless it starts with a separator, also when it is this path; when both paths are well-formed with an up-to-date cached length and the result stays below 2^32 bytes, so is the result, its cached length (the u32 sum of the parts) being its codepoint count |
| Paths.LeadingSeparator | source/alflib/file/path.cpp:71 | with separators fixed, a string starts with a separator of either kind exactly when its first byte is `/` |
| Paths.Path.Joined | source/alflib/file/path.cpp:88-94 | a fresh path of both, joined as Join does, leaving this path as it was; well-formed parts with up-to-date cached lengths give such a result while it stays below 2^32 bytes |
| Paths.Path.GetComponents | source/alflib/file/path.cpp:127-142 | the components are, one for one, those of Split, for paths below 2^32 codepoints |
| Paths.ComponentStep | source/alflib/file/path.cpp:133-138 | one callback keeps the loop invariant: finished components as in Split, the current one running from prevIndex |
| Paths.SplitStepSeparator | source/alflib/file/path.cpp:133-136 | at a separator the component so far is finished and the next one starts after it |
| Paths.SplitStepOther | source/alflib/file/path.cpp:133-138 | at any other codepoint the current component grows |
| Paths.ComponentAtSeparator | source/alflib/file/path.cpp:134-136 | the substring from prevIndex of `index - prevIndex` codepoints, in u32 arithmetic, is the finished component |
| Paths.LastComponentRest | source/alflib/file/path.cpp:140 | the rest of the string from prevIndex is the last component |
| Paths.Path.GetName | source/alflib/file/path.cpp:146-158 | as written: empty without a separator; otherwise from the last separator, inclusive, up to the last `.` when that comes after it, and else to the end |
| Paths.NameSubstring | source/alflib/file/path.cpp:154-157 | the substring GetName takes, through a u64 wrap-around of a negative count |
| Paths.GetNameOfPathToFile | tests/test_path.cpp:102 | of "path/to/file.txt" GetName as written yields "/file", while the intended name is "file.txt" |
| Paths.Path.NameIntended | tests/test_path.cpp:100-109 | the name is the last component: what follows the last separator, or the whole path |
| Paths.Path.GetExtensionString | source/alflib/file/path.cpp:186-194 | as written: empty exactly when there is no `.`, and otherwise everything from the last `.` on |
| Paths.ExtensionSubstring | source/alflib/file/path.cpp:193 | the substring from the last `.` is the rest of the codepoints and never empty |
| Paths.ExtensionOfFileDot | tests/test_path.cpp:129 | of "file." GetExtensionString as written yields ".", so GetExtension as written names an unknown extension, while the intended extension is empty and GetExtension gives none |
| Paths.Path.ExtensionIntended | tests/test_path.cpp:126-145 | the extension is the intended one: from the last `.` of the name when something follows it, and empty exactly then when there is none |
| Paths.Path.GetExtension | source/alflib/file/path.cpp:162-182 | none exactly when the (intended) extension string is empty, and each known kind exactly when the string is ".txt", ".png", ".tar" or ".zip" |
| Paths.Path.GetExtensionAsWritten | source/alflib/file/path.cpp:162-182 | as written, on GetExtensionString: none exactly when the path has no `.`, and each known kind exactly when the as-written extension string is ".txt", ".png", ".tar" or ".zip" |
| Paths.Classify | source/alflib/file/path.cpp:166-181 | an extension string names no extension exactly when it holds no codepoint, and each known kind exactly when it is that string |
| Paths.ExtensionCount | source/alflib/file/path.cpp:165-167 | an extension string counts no codepoints exactly when it is empty |
| Paths.KnownExtensionsCount | source/alflib/file/path.cpp:168-179 | each known extension counts four codepoints |
| Paths.PlusString | source/alflib/file/path.cpp:222-226 | the string is made a path and joined: its normalised bytes follow, after a `/` unless they start with one; a well-formed path and string give a well-formed result whose cached length is its codepoint count, while it stays below 2^32 bytes |
| Paths.Equals | source/alflib/file/path.cpp:198-202 | equal paths hold the same codepoints |
| Paths.SeparatorKindsEqual | tests/test_path.cpp:62-63 | paths made from strings that differ only in the kind of separator are equal |
| Paths.NotEquals | source/alflib/file/path.cpp:206-210 | `!=` is the negation of `==` |
| Images.BytesPerPixel | source/alflib/graphics/image.cpp:243-260 | 0 exactly for Unknown, 4 exactly for RGBA and BGRA, 3 exactly for RGB and BGR, never more than 4 |
| Images.FormatOfChannels | source/alflib/graphics/image.cpp:91-100 | the format found is Unknown or one whose pixel width is the channel count, never a BGR order |
| Images.ChannelsRecognised | source/alflib/graphics/image.cpp:91-100 | a channel count gives a known format exactly when it is 1, 3 or 4 |
| Images.ChannelsRoundTrip | source/alflib/graphics/image.cpp:91-100 | the channel count of a format leads back to a format of the same width, and to the format itself in RGB order |
| Images.DataSize | source/alflib/graphics/image.cpp:101 | the product in 32-bit unsigned arithmetic: 0 for Unknown, and the exact product while it stays below 2^32 |
| Images.DataSizeWraps | source/alflib/graphics/image.cpp:101 | a 65536 by 65536 grayscale or RGBA image is given a data size of 0 |
| Images.DataSizeMonotonic | source/alflib/graphics/image.cpp:101 | below 2^32 the size is exact and grows with each dimension |
| Images.DetermineFormatAndSize | source/alflib/graphics/image.cpp:84-101 | the dimensions are the decoder's values read as u32, the format follows the channel count, and the size is DataSize of them |
| Images.Image.constructor | source/alflib/graphics/image.cpp:118-120 | an image without a buffer, with zero size, valid |
| Images.Image.Create | source/alflib/graphics/image.cpp:145-165 | Success; the dimensions and format are set; when the data is in that format the buffer is the first DataSize bytes of it, and otherwise the buffer is kept |
| Images.Image.Move | source/alflib/graphics/image.cpp:183-193 | the new image takes over the other's fields and buffer; the other keeps its dimensions and has no buffer |
| Images.Image.MoveAssign | source/alflib/graphics/image.cpp:225-239 | as the move constructor, and no change at all for a self-move |

## Left out

- The `alfUTF8*` functions are not part of this model. Utf8 writes them out as the UTF-8 of section 3 of RFC 3629: shortest forms only, no surrogates, nothing above U+10FFFF.
- Utf8 does not say how the codec handles malformed input. A malformed sequence ends a scan, as a decode failure ends `ForEach`.
- UTF-16 is left out: `GetUTF16`, the `char16` constructor and `alfUTF8ToUTF16` are conversions into a foreign encoding.
- `String::Format` is left out; it calls the fmt library.
- The f32 and f64 reads and writes, and the String writes and reads, are left out because they are floating point or delegate to the string's own bytes.
- MemoryWriters and MemoryReaders model the integer kinds and `ArrayList<int>`. `Write(T)`, `Write(T*)` and `Read<T>` call the user type's `ToBytes`/`FromBytes`, which are not part of this model.
- `RecalculateLength`, raw writes through `GetData()` and `String::Resize` are left out. The model keeps the cached length in the field `length` and states where `Valid()` (length up to date) holds.
- The `char8*` overloads of `+`, `==` and `!=` are left out. They wrap the C string in a String and then use the String overloads, which are modelled.
- Sizes of 2^32 bytes or codepoints and more are modelled only where a contract needs them. The contracts of Size, Find, StartsWith, EndsWith, GetComponents and the Path getters assume a string below 2^32 codepoints or bytes.
- Paths models the non-Windows build: SEPARATOR is `/`, and FixSeparators turns `\` into `/`. The Windows branch is left out.
- `GetAbsolutePath` and `GetKnownDirectory` are left out; they are calls into the operating system.
- Strings.String.ForEach returns the sequence of calls it makes, in order. The callback and its extra arguments are not modelled.
- The moved-from state of String and Path (the emptied `std::string`) is not modelled. A move is modelled as a copy.
- `HasKey` is left out because it always returns false.
- RobinHood.RobinHoodMap.Resize is the empty method of the source. Access therefore requires an empty bucket, because the walk ends only at one.
- The float load factor is modelled as the integer test 5·size ≥ 4·capacity.
- `std::hash` is a parameter `hash: K -> u32` whose values lie in [1, 2^31).
- Strings.String.Replace requires `from` and `to` to be strings other than this one, and requires Terminates: a `to` shorter than `from`, or a `from` of one byte that `to` does not contain. Terminates is sufficient for the loop to end, not necessary: `Replace("cat", "dog")` ends in the source but is outside the contract. Replacing a string by itself, or with itself as `from` or `to`, is not modelled.
- ArrayLists.GrownCapacity is over unbounded naturals; the u64 overflow of `mCapacity * 2` at 2^63 elements and more is not modelled.
- ArrayLists.ArrayList.Remove: the source compares `this[i]`, which indexes `this` as an array of lists rather than the buffer. The model compares `buffer[i]`, the element, as the function evidently intends.
- Destructors, allocator lifetimes, placement new and `UniquePointer` are memory ownership and are left out. The leak of the old buffer in the ArrayList copy and move assignments is left out with them.
- The ArrayList `Iterator` is left out.
- MemoryReaders.MemoryReader.ReadArrayList calls the corrected ArrayLists.ArrayList.Resize, because the as-written one leaves the list's capacity below its size (see Findings).
- MemoryWriters.MemoryWriter.WriteBytes doubles the buffer size exactly. The source computes `GetSize() * BUFFER_RESIZE_FACTOR` with an f32 factor 2.0, so the size is first rounded to a 24-bit significand. For sizes with more than 24 significant bits the new size can be smaller than twice the old one: a buffer of 2^24 + 1 bytes is resized to 2^25, and a write the model accepts then runs past its end. Sizes of at most 24 significant bits, such as the default 16 · 2^k, double exactly.
- MemoryWriters.MemoryWriter.WriteBytes requires that one doubling of the buffer is enough for the write. The source does not check this, and `Buffer::Write` would otherwise write past the end.
- Decoding an image file, `Image::Load`, and the image copy constructor and copy assignment are left out. They are stb calls and file I/O, and the copy constructor reads `mDataSize` before setting it.
- The signed product `x * y` of the decoder's dimensions overflows with undefined behaviour in C++. Images.DataSize models it as two's-complement wrap-around modulo 2^32.
- The allocator-only Image constructor leaves its fields indeterminate. Images.Image.constructor gives them zero values.
- Paths.Path.GetExtension is built on the corrected extension string, Paths.Path.ExtensionIntended. For "file." it gives NoExtension, where the code as written, Paths.Path.GetExtensionAsWritten, compares "." and gives the unknown extension.

## Findings

| source | as written | input that shows it | evidently intended | confidence | as-written member | corrected member |
|---|---|---|---|---|---|---|
| include/alflib/collection/robin_hood_map.hpp:207-219 | after a swap, `operator[]` goes on carrying the displaced resident and returns the bucket where that resident lands | identity hash, 4 buckets holding 1, 5 and 2 in buckets 1 to 3, then `operator[](9)`: 9 goes to bucket 3, 2 moves to bucket 0, and bucket 0 is returned | the bucket where the requested key was stored | not executed | RobinHood.ReturnedSlotAfterSwap | RobinHood.RobinHoodMap.Put |
| include/alflib/collection/array_list.hpp:617-622 | `Resize(n)` with n above the capacity builds a buffer of n elements but leaves `mCapacity` as it was | `Resize(20)` on a default list (capacity 10), then `Append` | capacity at least n after the resize | not executed | ArrayLists.StaleCapacityOverflowsOnAppend | ArrayLists.ArrayList.Resize |
| include/alflib/collection/array_list.hpp:497 | the shift loop of `Prepend` starts at size - 1 and counts up until the u64 counter wraps to 0; on one element it shifts nothing, so the new element overwrites the old one at index 0 and index 1 is left unwritten | an empty list: the counter starts at 2^64 - 1 and the loop runs once, writing in front of the buffer; a list of 2 elements: 2^64 - 1 iterations | count down from size - 1 to 0, moving every element one place up | not executed | ArrayLists.PrependOnTwoElementsNeverFinishes | ArrayLists.ArrayList.Prepend |
| source/alflib/string.cpp:218-232 | `Remove(0)` encodes NUL, which as a C string is "", and calls `Replace("", "")` | any string, `Remove(0)` | return 0, as for a codepoint that cannot be encoded | not executed | Strings.ReplaceEmptyIsFixedPoint | Strings.String.Remove |
| source/alflib/file/path.cpp:146-158 | `GetName` starts at the last separator, inclusive, and stops before the last `.` | "path/to/file.txt" gives "/file" | "file.txt", what follows the last separator | not executed | Paths.GetNameOfPathToFile | Paths.Path.NameIntended |
| source/alflib/file/path.cpp:186-194 | `GetExtensionString` returns everything from the last `.`, even when nothing follows it or a separator does | "file." gives "." | "", because the extension must follow the last `.` of the name and be nonempty | not executed | Paths.ExtensionOfFileDot | Paths.Path.ExtensionIntended |
