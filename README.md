# A verified model of the slotted B-tree leaf page

This project models the core of a small C++ B-tree storage engine in Dafny and proves properties of the model. The core has three parts.

- **The page codec and the leaf page** (`src/btree/btree.h`).
  - Modules `Codec`, `NodeType` and `BTree`.
  - The page is `BTreeNode<int32_t, std::string>`, an 8192-byte page.
  - It starts with a 40-byte `BTreePagerHeader`.
  - After the header comes a directory of 16-bit little-endian slot offsets. The directory grows forward from byte 40 and is kept in key order.
  - Cells grow backward from the end of the page. A cell is the serialized key followed by the serialized value.
  - An `int32_t` is stored as its 4 little-endian bytes.
  - A `std::string` is stored as an 8-byte length followed by its bytes.
  - On read-back, the string length is taken from the first byte of the length prefix only.
  - The node type lives in the low four bits of the header's `_info` field.
  - `BTreeNode` is a class. Its header is a value field. Its page is an `array<byte>`, updated in place by the memcpy and memmove loops of `insert`.
- **The page arena** (`src/btree/buffercache.h`), in module `PageArena`.
  - `BufferCache` hands out page identifiers from a bump counter.
  - Freed identifiers go on a free list and come back last-in first-out.
  - An identifier maps to the page offset `pid * PageSize`, computed in 32-bit arithmetic.
- **The UTF-8 encoder** `code_point_to_utf8` (`src/btree/main.cpp`), in module `Utf8`. The test data generator uses it to build values.

## Main results

- **The page stays well formed and holds the right items after an insert.** A page is well formed when:
  - the directory and the cells do not overlap;
  - every slot points at a cell that can be decoded inside the page;
  - the keys are in non-decreasing order.

  Take a non-split `insert` on a well-formed page, where the new cell and its slot fit in the free space. Afterwards the page is still well formed, and its items are the old items with the new pair at the insert position (`BTree.BTreeNode.Insert`).
  - The source's split test does not guarantee that the cell fits: it compares in-memory object sizes, not serialized sizes.
  - Every value of up to 802 bytes fits once the split test passes (`BTree.NoSplitLeavesRoom`). The values of `main.cpp` are at most 210 bytes.
  - An 803-byte value can pass the test and still not fit (`BTree.SplitTestAdmitsOverlongValue`). The model does not cover that case.

  The proof works in two steps:
  - the byte-level writes of `insert` produce an image `InsertedImage`, described byte by byte (`BTree.InsertWritesItems`);
  - decoding that image gives `InsertAt(old items, pos, new item)` (`BTree.InsertedImageItems`).
- **Binary search.**
  - `findItemInsertPosition` returns a position that splits the keys into those at most the new key and those at least it.
  - `find` returns the page id and a value stored under the key when there is one. When there is none, it returns `InvalidPid`.
- **Insert then find.** Take a page with keys in strict order and insert an absent key without a split. A following `find` returns the page id and the stored value (`BTree.InsertThenFind`).
- **Codec round trips.**
  - An `int32_t` reads back as itself.
  - A string reads back cut to its length modulo 256. So the round trip is exact if and only if the string is shorter than 256 bytes (`Codec.StringRoundTripExact`).
- **The header is 40 bytes.** This is proved from a model of how natural alignment lays out the fields: five 16-bit fields (bytes 0–9), 2 bytes of padding, six 32-bit fields (bytes 12–35), one 16-bit field (bytes 36–37), then rounding up to a multiple of 4.
  - A packed header would put the slot directory at byte 36.
  - The code's `sizeof` gives 40, and this model follows the code.
- **The split test runs before the new item is added.** `insert` tests the current fill, not the fill after adding the item, and the model follows the code.
- **The single-leaf test of `main.cpp` as a concrete page.** `BTree.BuildOneLeaf` builds the page with the keys 5, 1 and 3 inserted in that order, and proves it holds them in key order. Two lookup methods then show:
  - each stored key is found with its value (`BTree.OneLeafFindsStoredKeys`);
  - an absent key is reported as not found.

## Model

| member | source | states |
|---|---|---|
| Codec.SerializeInt | src/btree/btree.h:99-130 | an `int32_t` serializes to exactly `getSerializedSize` (4) bytes |
| Codec.LittleEndianRoundTrip | src/btree/btree.h:109-121 | reading back the little-endian bytes of a number gives the number |
| Codec.DeserializeInt | src/btree/btree.h:117-121 | every four bytes are the serialization of the `int32_t` they read back as, so no bit pattern is lost |
| Codec.IntRoundTrip | src/btree/btree.h:112-121 | whatever follows it in memory, a serialized `int32_t` deserializes to itself |
| Codec.SerializeString | src/btree/btree.h:107-127 | a string serializes to its length plus 8 bytes: an 8-byte prefix holding the length, then the string's bytes |
| Codec.DeserializeString | src/btree/btree.h:117-119 | the string read back is a prefix of the bytes after the 8-byte length, shorter than 256 bytes; what it gives back for a serialized string is in `Codec.StringRoundTrip` |
| Codec.SerializedSizeSkipsField | src/btree/btree.h:124-130 | `getSerializedSize` of a key or a string is exactly the number of bytes `serialize` writes, so the address plus the size is where the next field starts |
| Codec.StringReadableAfterSerialize | src/btree/btree.h:107-119 | a serialized string can always be read back, and the first prefix byte is the length modulo 256 |
| Codec.StringRoundTrip | src/btree/btree.h:107-122 | a string reads back as its first `length mod 256` bytes |
| Codec.StringRoundTripExact | src/btree/btree.h:107-122 | the round trip gives back the string if and only if it is shorter than 256 bytes |
| NodeType.WithNodeType | src/btree/btree.h:21-27 | after `SetNodeType`, the node-type bits are those of the type; every other bit is the old bit or-ed with the type's |
| NodeType.SetNodeTypeReplacesTypeBits | src/btree/btree.h:17-39 | a type made only of flag bits keeps every other bit, and each `Is*Node` test reads back exactly whether its flag was set |
| NodeType.NodeTypeTestsIgnoreOtherBits | src/btree/btree.h:29-39 | `IsRootNode`, `IsIntermiediateNode` and `IsLeafNode` give the same answer whatever bits outside the node-type bits are set |
| NodeType.NodeTypeTestsReadTypeBits | src/btree/btree.h:29-39 | each test gives the same answer on the node-type bits of `info` alone |
| NodeType.RootLeafNodeType | src/btree/main.cpp:133-137 | a page typed `RootNode \| LeafNode` is a root and a leaf and not an intermediate node |
| Utf8.CodePointToUtf8 | src/btree/main.cpp:28-52 | the encoding has 1, 2, 3 or 4 bytes by the bands of RFC 3629, and it is empty exactly above 0x10FFFF |
| Utf8.EncodingShape | src/btree/main.cpp:31-49 | the lead byte marks the sequence length and every later byte is a continuation byte in 0x80–0xBF |
| Utf8.PayloadRoundTrip | src/btree/main.cpp:31-49 | putting the payload bits of the bytes back together gives the code point |
| Utf8.AsciiIsItself | src/btree/main.cpp:31-33 | a code point up to 0x7F encodes as its own single byte |
| Utf8.SurrogatesNotRejected | src/btree/main.cpp:38-42 | surrogates D800–DFFF are encoded as 3 bytes with lead byte 0xED |
| Utf8.EncodingInjective | src/btree/main.cpp:28-52 | distinct code points up to 0x10FFFF have distinct encodings |
| PageArena.Allocate | src/btree/buffercache.h:18-30 | with freed identifiers, hands out one of them, takes exactly that one off the free list and leaves the counter; otherwise hands out the counter and advances it by one |
| PageArena.FreePid | src/btree/buffercache.h:32-35 | adds the identifier to the free list once and leaves the counter |
| PageArena.AllocatePreservesInv | src/btree/buffercache.h:18-30 | allocation keeps every handed-out identifier below the counter and the counter within the arena, and hands out one of those identifiers |
| PageArena.FreePreservesInv | src/btree/buffercache.h:32-35 | freeing a handed-out identifier keeps that invariant |
| PageArena.FreeThenAllocate | src/btree/buffercache.h:18-35 | an allocation right after `free(pid)` returns `pid` and restores the state from before the free |
| PageArena.FreedComeBackLastInFirstOut | src/btree/buffercache.h:18-35 | identifiers freed in turn come back in reverse order |
| PageArena.FreshAllocationsCount | src/btree/buffercache.h:24-26 | with an empty free list, `k` allocations hand out the next `k` identifiers in increasing order |
| PageArena.PageOffset | src/btree/buffercache.h:37-39 | a page offset is a multiple of the page size below 2^32, and equals `pid * 8192` while that does not wrap |
| PageArena.PagesDisjoint | src/btree/buffercache.h:37-39 | distinct pages below 2^19 do not overlap |
| PageArena.BufferCache.constructor | src/btree/buffercache.h:14-16 | a new arena has an empty free list and its counter at 0 |
| PageArena.BufferCache.InitNextFreePage | src/btree/buffercache.h:18-30 | pops the back of the free list if there is one, else takes the counter and advances it; the page is the identifier's offset |
| PageArena.BufferCache.Free | src/btree/buffercache.h:32-35 | pushes the identifier on the back of the free list and changes nothing else |
| PageArena.BufferCache.Get | src/btree/buffercache.h:37-39 | the page offset of the identifier, which lies inside the buffer when the whole buffer is addressable in 32 bits |
| PageArena.AllocateFirstThree | src/btree/buffercache.h:18-30 | the first three allocations of a new arena hand out pages 0, 1 and 2 at offsets 0, 8192 and 16384 |
| PageArena.AllocateAfterFrees | src/btree/buffercache.h:18-35 | with 1 and then 0 freed, allocations hand out 0, then 1, then the fresh page 3 |
| PageArena.FreshArenaScenario | src/btree/buffercache.h:14-35 | a new arena hands out 0, 1, 2; after `free(1)` and `free(0)` it hands out 0, 1, 3 |
| BTree.HeaderIsFortyBytes | src/btree/btree.h:41-83 | laid out with natural alignment, the header's fields take 40 bytes, so the slot directory starts at byte 40 |
| BTree.HeaderFieldsEnd | src/btree/btree.h:46-79 | the last header field ends at byte 38 |
| BTree.SlotAtBytes | src/btree/btree.h:273-274 | a slot is read as a 16-bit little-endian number |
| BTree.CellAt | src/btree/btree.h:275-278 | the value of a cell has the length its prefix's first byte gives |
| BTree.GetItemKeyValue | src/btree/btree.h:272-282 | the key and value read through slot `index` are the page's `index`-th item; the key re-serializes to the four bytes at that slot's offset, and if a string was serialized right after them the value is that string cut to its length modulo 256 (so shorter than 256 bytes) |
| BTree.CellReadsBack | src/btree/btree.h:272-282 | the key of a cell re-serializes to the four bytes at the cell's offset, and a string serialized after them reads back cut to its length modulo 256 |
| BTree.CellDecodes | src/btree/btree.h:161-166 | the cell `insert` writes, read back the way `getItemKeyValue` reads it (btree.h:275-278), gives the key and the value cut to its length modulo 256, whatever follows it |
| BTree.FillTestIsExact | src/btree/btree.h:150-152 | in exact arithmetic, the integer test `10 * used > 9 * 8152` agrees with `1.0 - free / MaxPageSlotSpace > 0.9` |
| BTree.NoSplitLeavesRoom | src/btree/btree.h:149-155 | a page that passes both split tests has room for the cell and slot of any value of up to 802 bytes |
| BTree.SplitTestAdmitsOverlongValue | src/btree/btree.h:149-155 | a page with no slots and 7336 bytes of cells passes both split tests, yet an 803-byte value and its slot do not fit |
| BTree.CellFitsLeavesNoOverlap | src/btree/btree.h:161-177 | when the cell and one more slot fit in the free space, the grown directory ends at or below the new cell's start |
| BTree.WriteCellKeepsPage | src/btree/btree.h:161-167 | writing a cell below `upper` keeps the page well formed with the lower `upper`, and keeps its items |
| BTree.WriteAtAdjacent | src/btree/btree.h:163-166 | writing the key and then the value right after it is one write of the whole cell |
| BTree.InsertImageSteps | src/btree/btree.h:163-177 | the cell write, slot shift and slot write of `insert`, one after the other, give the inserted image |
| BTree.InsertedImageSlots | src/btree/btree.h:172-177 | after an insert, the slots before the position stay, the new slot holds the cell's offset, and the later slots move right by one |
| BTree.InsertedImageOldCells | src/btree/btree.h:160-167 | the cells already on the page decode the same after the insert |
| BTree.InsertedImageNewCell | src/btree/btree.h:161-167 | the new cell decodes to the key and the stored value |
| BTree.InsertedImageItems | src/btree/btree.h:160-178 | the inserted image is a well-formed page whose items are the old ones with the new pair at the position |
| BTree.InsertWritesItems | src/btree/btree.h:160-178 | the writes of `insert` give the inserted image, which is a well-formed page holding the old items plus the new pair at the position |
| BTree.InsertAtSorted | src/btree/btree.h:169-178 | inserting at an insert position keeps the keys in order |
| BTree.InsertAtStrictlySorted | src/btree/btree.h:169-178 | inserting an absent key at its insert position keeps the keys strictly in order |
| BTree.KeysOfInsertAt | src/btree/btree.h:169-178 | the keys after an insert are the old keys with the new key at the position |
| BTree.InsertKeepsItems | src/btree/btree.h:169-178 | an insert keeps every old item, adds the new one, and changes the multiset of items by exactly that item |
| BTree.InsertAbsentKey | src/btree/btree.h:136-182 | inserting an absent key keeps the keys strictly ordered and every old item, and makes the new item the only one under its key |
| BTree.DistinctKeysNameOneValue | src/btree/btree.h:184-206 | with the keys in strict order, the value `find` can return for a key is unique |
| BTree.InsertPositionUnique | src/btree/btree.h:286-317 | for a key strictly between the keys before `p` and those from `p` on, `p` is the only insert position |
| BTree.BTreeNode.constructor | src/btree/main.cpp:130-135 | a page set up as the single-leaf test sets it up: `upper` at the page end, the padding marker, the arena's pid, and no items |
| BTree.BTreeNode.SetNodeType | src/btree/btree.h:24-27 | only `info` changes, to `WithNodeType` of the old value; the items stay |
| BTree.BTreeNode.Memcpy | src/btree/btree.h:109-112 | the page after the copy loop is the old page with the bytes written at the destination |
| BTree.BTreeNode.Memmove | src/btree/btree.h:173-174 | the page after the backward copy loop is the old page with the old source range written at the destination |
| BTree.BTreeNode.KeyAt | src/btree/btree.h:272-282 | the key of slot `index` is the page's `index`-th key, and it re-serializes to the four bytes at that slot's offset |
| BTree.BTreeNode.FindItemInsertPosition | src/btree/btree.h:286-317 | the position splits the keys into those at most the key and those at least it; `append` holds exactly at the end; either every key before it is smaller or the position holds the key |
| BTree.BTreeNode.SearchInsertPosition | src/btree/btree.h:300-315 | for a key no greater than the last one, the loop ends inside the directory at an insert position, with every earlier key smaller or with the key at the position |
| BTree.BTreeNode.Find | src/btree/btree.h:184-211 | for an insert, returns this page; otherwise returns this page and a value stored under the key when there is one, and `InvalidPid` with no data when there is none |
| BTree.BTreeNode.Insert | src/btree/btree.h:136-182 | returns this page's id; when the page needs a split, nothing changes; otherwise `items_count` grows by one, `upper` drops by the cell size, the page is the inserted image, and the items are the old ones with the stored pair at an insert position |
| BTree.BTreeNode.InsertCell | src/btree/btree.h:159-179 | the non-split branch: the same header, image and items as in `Insert` |
| BTree.BTreeNode.WriteCell | src/btree/btree.h:161-167 | the key, then the value, are written right below `upper`, and `upper` drops to the cell start |
| BTree.BTreeNode.InsertSlot | src/btree/btree.h:169-178 | the later slots move right unless the insert appends, the new slot takes the cell start, and the count grows by one |
| BTree.ScenarioInsert | src/btree/main.cpp:144-145 | a short value inserted under a key strictly between its neighbours lands at that position, unchanged |
| BTree.InsertThenFind | src/btree/main.cpp:144-150 | after a non-split insert of an absent key, `find` returns this page and the stored value, the keys stay strictly ordered, and no old item is lost |
| BTree.BuildFiveOne | src/btree/main.cpp:129-145 | the root leaf takes page 0, the first one a fresh 100-page arena hands out; once 5 and 1 are inserted it holds `[1, 5]` and its `upper` has dropped by 31 bytes |
| BTree.NewRootLeaf | src/btree/main.cpp:130-136 | the first page of a fresh arena, typed as a root leaf (root and leaf, not intermediate), is empty with `upper` at the page end |
| PageArena.FirstFreshPage | src/btree/main.cpp:130-131 | the first allocation of a fresh 100-page arena is identifier 0 at offset 0 |
| BTree.BuildOneLeaf | src/btree/main.cpp:129-145 | once 5, 1 and 3 are inserted, the root leaf is well formed, has pid 0, and holds them in key order |
| BTree.FindStoredKey | src/btree/btree.h:184-206 | on a page with keys in strict order, `find` of a stored key returns this page and exactly the value stored under it |
| BTree.OneLeafKeysStrictlySorted | src/btree/main.cpp:144-150 | the keys of the single-leaf page, 1, 3 and 5, are in strict order |
| BTree.OneLeafFindsStoredKeys | src/btree/main.cpp:147-150 | each of the keys 1, 3 and 5 is found on page 0 with the value inserted under it |
| BTree.OneLeafMissesAbsentKey | src/btree/btree.h:207-208 | a key that was never inserted is reported as `InvalidPid` with no data |

## Left out

- Locking: the `std::shared_mutex` of `BufferCache` (buffercache.h:19, 33, 46) is not modelled, because the model is sequential.
- The `float`, `double`, `long double`, `bool`, `long` and `long long` instances of the codec are not modelled, because the tree is instantiated only at `int32_t` keys and `std::string` values.
- The fill-factor test is floating point in the source. It is modelled in exact integers as `10 * used > 9 * 8152`, which gives the same verdict for every integer `used`.
- The intermediate-node branch of `find` (btree.h:212-223) and the recursive `insert` into another page (btree.h:141-144) are not modelled: `isLeaf()` is hard-coded to true, so neither is reachable.
- The split branch of `insert` only builds an exception object (btree.h:158). The model therefore does nothing on that branch.
- `remove`, `to_string`, `set_header`, `getHeader` and `GetBTreeNode` are not modelled. They are a stub, console output or plain accessors.
- `btree.cpp` and `unit_test.cpp` are not part of this model.
- The random test data generators and `main` in `main.cpp` are left out, because randomness is not modelled.
  - The single-leaf test's ten random keys and values are replaced by the fixed keys 5, 1 and 3 with short ASCII values.
  - Random keys can collide, and in that case `find` may return the other value. This is not modelled.
- `testSerialization` (main.cpp:90-127) is covered by the codec round-trip lemmas, not as a scenario. Its `double` value is not modelled. Its `assert(i1 = i1d)` is an assignment, not a comparison.
- The platform's memory layout is taken as given: little-endian, an 8-byte `size_t`, and a 24-byte `std::string` object (libc++) in the split test's `sizeof(value)`.
- The header is the value field `header`. Bytes 0–39 of the page array stand for its storage and are not kept equal to it. No modelled operation reads the header through the page bytes.
- The page's memory is not modelled as an alias of the arena buffer. `BTreeNode` owns its own 8192-byte array.
- `BTree.BTreeNode.Insert`: requires that, when the split test passes, the serialized cell and one more slot fit in the free space.
  - The source's test at btree.h:153 compares `sizeof(key) + sizeof(value)` (28 bytes), not the serialized sizes.
  - So a value over 802 bytes, on a page with at most 7336 bytes in use, passes the test (`BTree.SplitTestAdmitsOverlongValue`).
  - The source then writes the new slot over the start of the cell (btree.h:163-177). The model does not describe that overwritten page.
- `BTree.BTreeNode.Insert`: requires the page's pid not to be `InvalidPid` when `foundNode` is false. This models the `assert` at btree.h:139, which aborts the program; a build without assertions would carry on the same way.
- `PageArena.BufferCache.Free`: requires an identifier that was handed out (`pid < nextFreePage`). The source pushes any identifier (buffercache.h:32-35) and pops it again unchecked (buffercache.h:21-26). An identifier at or past the arena's page count is later handed out as a page outside the arena. One between the counter and the page count is handed out twice: once from the free list, and again when the counter reaches it.
- `PageArena.BufferCache.InitNextFreePage`: the source never checks the arena's capacity, so handing out a page past the end is a precondition here, not a modelled outcome.
- The slot shift is written with `memcpy` on overlapping ranges (btree.h:174). The model copies from the end like `memmove`, which is the evident intent.
- `BTree.BTreeNode.constructor`: zeroes the page and the unset header fields and takes the arena's pid. The source reinterprets uninitialised arena memory and never sets `_items_count` or `_pid` (main.cpp:131-135).
- main.cpp:131 calls `initNextFreePage`, but the class defines `init_next_free_page`. The model uses the class's operation.
- Strings of 256 bytes or more come back truncated from a page, because the length is read from one byte. This is modelled as written, in `Codec.StringRoundTripExact` and in `BTree.StoredItem`.
- The `size_t` free-space computation of `insert` (btree.h:150) cannot wrap while the directory and the cells do not overlap, which well-formedness guarantees. So it is modelled with plain integers.
- `BTree.BTreeNode.Find`: when several items share the key, the contract says only that the returned value is one stored under that key, not which slot the binary search stops at.
- `BTree.BTreeNode.FindItemInsertPosition`: when the key is already present, the contract does not say which of the equal keys' positions is returned.
