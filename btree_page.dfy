/**
  One B-tree page, `BTreeNode<int32_t, std::string>`: an 8192-byte block
  with a fixed 40-byte header, a directory of 16-bit little-endian slot
  offsets growing forward from byte 40 in key order, and a cell area growing
  backward from byte `upper` to the end of the page.  Each cell is the
  serialized key followed by the serialized value.

  Only the leaf path of the page code is live (`isLeaf()` is hard-coded to
  true), so the page is modelled as a leaf.  The header is the value-typed
  member `_header`; the byte array holds the whole page, so that every offset
  is the one the source computes, and its first 40 bytes stand for the
  header's storage, which no operation here reads through the array.
 */
module BTree {
  import opened Codec
  import opened NodeType
  import PageArena

  const PageSize: nat := PageArena.PageSize
  /** `BTreePagerHeaderSize`: `sizeof(BTreePagerHeader)` with natural alignment. */
  const HeaderSize: nat := 40
  /** `MaxPageSlotSpace`: the bytes shared by the slot directory and the cells. */
  const MaxPageSlotSpace: nat := PageSize - HeaderSize
  /** `sizeof(uint16_t)`: the width of one slot. */
  const SlotWidth: nat := 2
  const InvalidPid: uint32 := 0xFFFF_FFFF
  const PageHeaderPadding: uint16 := 0xEFEF
  /** `sizeof(key)` for an `int32_t` key. */
  const SizeOfKeyObject: nat := 4
  /** `sizeof(value)` for a `std::string` value: the object, not its bytes (24 in libc++). */
  const SizeOfValueObject: nat := 24

  // ----- header layout -----

  /** The width in bytes of a scalar field, which is also its natural alignment. */
  type Width = w: nat | w > 0 witness 1

  /** The widths of the header's fields, in declaration order. */
  const HeaderFieldWidths: seq<Width> := [2, 2, 2, 2, 2, 4, 4, 4, 4, 4, 4, 2]

  function AlignUp(offset: nat, align: Width): nat
  {
    (offset + align - 1) / align * align
  }

  /** Where the fields laid out from `offset` end, each at its natural alignment. */
  function LayoutEnd(widths: seq<Width>, offset: nat): nat
  {
    if widths == [] then offset
    else LayoutEnd(widths[1..], AlignUp(offset, widths[0]) + widths[0])
  }

  /** `m` is the widest of the fields, hence the alignment of the struct. */
  predicate IsWidest(widths: seq<Width>, m: Width)
  {
    m in widths && forall i :: 0 <= i < |widths| ==> widths[i] <= m
  }

  /** The size of a struct: its fields laid out, rounded up to its widest field. */
  function StructSize(widths: seq<Width>, align: Width): nat
  {
    AlignUp(LayoutEnd(widths, 0), align)
  }

  /** The header occupies 40 bytes, so the slot directory starts at byte 40. */
  lemma HeaderIsFortyBytes()
    ensures IsWidest(HeaderFieldWidths, 4)
    ensures StructSize(HeaderFieldWidths, 4) == HeaderSize
  {
    assert HeaderFieldWidths[5] == 4;
    HeaderFieldsEnd();
  }

  /** The last header field ends at byte 38. */
  lemma HeaderFieldsEnd()
    ensures LayoutEnd(HeaderFieldWidths, 0) == 38
  {
    var w := HeaderFieldWidths;
    HeaderTailFieldsEnd();
    assert LayoutEnd(w[5..], 10) == 38;
    assert LayoutEnd(w[4..], 8) == 38;
    assert LayoutEnd(w[3..], 6) == 38;
    assert LayoutEnd(w[2..], 4) == 38;
    assert LayoutEnd(w[1..], 2) == 38;
  }

  /** The 32-bit fields start at byte 12, after two bytes of alignment padding. */
  lemma HeaderTailFieldsEnd()
    ensures LayoutEnd(HeaderFieldWidths[6..], 16) == 38
  {
    var w := HeaderFieldWidths;
    assert LayoutEnd(w[12..], 38) == 38;
    assert LayoutEnd(w[11..], 36) == 38;
    assert LayoutEnd(w[10..], 32) == 38;
    assert LayoutEnd(w[9..], 28) == 38;
    assert LayoutEnd(w[8..], 24) == 38;
    assert LayoutEnd(w[7..], 20) == 38;
  }

  /** `BTreePagerHeader`. */
  datatype Header = Header(
    info: bv16,
    version: uint16,
    fillFactor: uint16,
    itemsCount: uint16,
    upper: uint16,
    parentPid: uint32,
    leftPid: uint32,
    rightPid: uint32,
    crc: uint32,
    pid: uint32,
    rightChildPid: uint32,
    padding: uint16)

  /** A decoded cell: a key and its value. */
  datatype Item = Item(key: int32, value: seq<byte>)

  /** `FindResult<std::string>`; `data` is the empty string when only `pid` is set. */
  datatype FindResult = FindResult(pid: uint32, data: seq<byte>)

  // ----- the page image -----

  /** The byte offset of slot `i` in the page. */
  function SlotOffset(i: nat): nat
  {
    HeaderSize + SlotWidth * i
  }

  /** The cell offset stored in slot `i`. */
  function SlotAt(img: seq<byte>, i: nat): uint16
    requires SlotOffset(i + 1) <= |img|
  {
    FromLittleEndian(img[SlotOffset(i) .. SlotOffset(i) + SlotWidth])
  }

  /** A slot is its low byte plus 256 times its high byte. */
  lemma SlotAtBytes(img: seq<byte>, i: nat)
    requires SlotOffset(i + 1) <= |img|
    ensures SlotAt(img, i) == img[SlotOffset(i)] as int + 256 * (img[SlotOffset(i) + 1] as int)
  {
    var b := img[SlotOffset(i) .. SlotOffset(i) + SlotWidth];
    assert b[1..][1..] == [];
    assert FromLittleEndian(b[1..]) == b[1];
  }

  /** A cell at offset `o` can be decoded without reading past the page. */
  predicate CellInPage(img: seq<byte>, o: nat)
  {
    o + SizeOfInt32 <= |img| && StringReadable(img[o + SizeOfInt32..])
  }

  /** The key, then the value, deserialized from offset `o`. */
  function CellAt(img: seq<byte>, o: nat): (r: Item)
    requires CellInPage(img, o)
    ensures |r.value| == img[o + SizeOfInt32] < 256
  {
    Item(DeserializeInt(img[o..]), DeserializeString(img[o + SizeOfInt32..]))
  }

  /** Every slot of the directory lies inside the page and points at a decodable cell. */
  predicate SlotsReadable(img: seq<byte>, n: nat)
  {
    SlotOffset(n) <= |img| && forall i :: 0 <= i < n ==> CellInPage(img, SlotAt(img, i))
  }

  /**
    A cell read back against what was written there: the key is the `int32_t`
    whose four bytes sit at the offset, and if a string was serialized right
    after them, the value is that string cut to its length modulo 256.
   */
  lemma CellReadsBack(img: seq<byte>, o: nat)
    requires CellInPage(img, o)
    ensures SerializeInt(CellAt(img, o).key) == img[o .. o + SizeOfInt32]
    ensures forall v: seq<byte>, rest: seq<byte> ::
      (|v| < Pow256(SizeOfSizeT) && img[o + SizeOfInt32..] == SerializeString(v) + rest)
        ==> CellAt(img, o).value == v[..|v| % 256]
  {
    assert img[o..][..SizeOfInt32] == img[o .. o + SizeOfInt32];
    forall v: seq<byte>, rest: seq<byte> |
      |v| < Pow256(SizeOfSizeT) && img[o + SizeOfInt32..] == SerializeString(v) + rest
      ensures CellAt(img, o).value == v[..|v| % 256]
    {
      StringRoundTrip(v, rest);
    }
  }

  /**
    `getItemKeyValue`: the key and value of the item in slot `index`, the
    page's `index`-th item.  The key re-serializes to the four bytes at the
    slot's offset, and a string serialized right after them reads back cut to
    its length modulo 256.
   */
  function GetItemKeyValue(img: seq<byte>, n: nat, index: nat): (r: Item)
    requires SlotsReadable(img, n) && index < n
    ensures r == PageItems(img, n)[index]
    ensures |r.value| < 256
    ensures SerializeInt(r.key) == img[SlotAt(img, index) .. SlotAt(img, index) + SizeOfInt32]
    ensures forall v: seq<byte>, rest: seq<byte> ::
      (|v| < Pow256(SizeOfSizeT) && img[SlotAt(img, index) + SizeOfInt32..] == SerializeString(v) + rest)
        ==> r.value == v[..|v| % 256]
  {
    CellReadsBack(img, SlotAt(img, index));
    CellAt(img, SlotAt(img, index))
  }

  /** The items of the page in directory order. */
  function PageItems(img: seq<byte>, n: nat): (items: seq<Item>)
    requires SlotsReadable(img, n)
    ensures |items| == n
  {
    seq(n, i requires 0 <= i < n => CellAt(img, SlotAt(img, i)))
  }

  function KeysOf(items: seq<Item>): (keys: seq<int>)
    ensures |keys| == |items|
  {
    seq(|items|, i requires 0 <= i < |items| => items[i].key as int)
  }

  /** Non-decreasing. */
  predicate Sorted(keys: seq<int>)
  {
    forall i, j :: 0 <= i < j < |keys| ==> keys[i] <= keys[j]
  }

  predicate StrictlySorted(keys: seq<int>)
  {
    forall i, j :: 0 <= i < j < |keys| ==> keys[i] < keys[j]
  }

  predicate HasKey(items: seq<Item>, key: int)
  {
    exists i :: 0 <= i < |items| && items[i].key == key
  }

  /** The slot directory and the cell area do not overlap. */
  predicate CapacityInv(n: nat, upper: nat)
  {
    HeaderSize + SlotWidth * n + (PageSize - upper) <= PageSize && upper <= PageSize
  }

  /**
    A well-formed leaf page: the directory and the cells do not overlap, every
    slot points into the cell area, and the keys are in non-decreasing order.
   */
  ghost predicate ValidPage(img: seq<byte>, n: nat, upper: nat)
  {
    && |img| == PageSize
    && CapacityInv(n, upper)
    && SlotsReadable(img, n)
    && (forall i :: 0 <= i < n ==> upper <= SlotAt(img, i))
    && Sorted(KeysOf(PageItems(img, n)))
  }

  // ----- free space and the split test -----

  /** The bytes taken by the directory and the cells. */
  function UsedSpace(n: nat, upper: nat): int
  {
    n * SlotWidth + (PageSize - upper)
  }

  function FreeSpace(n: nat, upper: nat): int
  {
    MaxPageSlotSpace - UsedSpace(n, upper)
  }

  /**
    The split test: the page is more than 90% used (the floating-point test
    `1.0 - free / MaxPageSlotSpace > 0.9`, exact in integers), or the in-memory
    objects `sizeof(key) + sizeof(value)` do not fit in the free space.
   */
  predicate NeedSplit(n: nat, upper: nat)
  {
    10 * UsedSpace(n, upper) > 9 * MaxPageSlotSpace
    || SizeOfKeyObject + SizeOfValueObject >= FreeSpace(n, upper)
  }

  /** The serialized cell and one more slot fit in the free space. */
  predicate CellFits(n: nat, upper: nat, value: seq<byte>)
  {
    SerializedSizeInt(0) + SerializedSizeString(value) + SlotWidth <= FreeSpace(n, upper)
  }

  /**
    The integer form of the fill test agrees, in exact arithmetic, with the
    source's `1.0 - free / MaxPageSlotSpace > 0.9`.
   */
  lemma FillTestIsExact(n: nat, upper: nat)
    ensures (10 * UsedSpace(n, upper) > 9 * MaxPageSlotSpace)
        <==> 1.0 - (FreeSpace(n, upper) as real) / (MaxPageSlotSpace as real) > 0.9
  {
    var m := MaxPageSlotSpace as real;
    var f := FreeSpace(n, upper) as real;
    assert 1.0 - f / m == (m - f) / m;
    assert (m - f) / m > 0.9 <==> m - f > 0.9 * m;
  }

  /**
    A page that passes the split test has room for the cell of any value of
    up to 802 bytes, together with its slot.
   */
  lemma NoSplitLeavesRoom(n: nat, upper: nat, value: seq<byte>)
    requires !NeedSplit(n, upper) && |value| <= 802
    ensures CellFits(n, upper, value)
  {
  }

  /**
    The split test compares the in-memory sizes `sizeof(key) + sizeof(value)`
    with the free space, not the serialized ones: an empty-directory page with
    7336 bytes of cells passes it, yet an 803-byte value and its slot do not fit.
   */
  lemma SplitTestAdmitsOverlongValue(value: seq<byte>)
    requires |value| == 803
    ensures !NeedSplit(0, PageSize - 7336) && !CellFits(0, PageSize - 7336, value)
  {
  }

  /**
    When the cell and its slot fit, the directory grown by one slot ends at or
    below where the cell starts, so neither overwrites the other.
   */
  lemma CellFitsLeavesNoOverlap(n: nat, upper: nat, key: int32, value: seq<byte>)
    requires CapacityInv(n, upper) && CellFits(n, upper, value) && |value| < Pow256(SizeOfSizeT)
    ensures SlotOffset(n + 1) + |Cell(key, value)| <= upper
  {
  }

  // ----- insertion, on the image -----

  /** The bytes of a cell: the key, then the value. */
  function Cell(key: int32, value: seq<byte>): (c: seq<byte>)
    requires |value| < Pow256(SizeOfSizeT)
    ensures |c| == SerializedSizeInt(key) + SerializedSizeString(value)
  {
    SerializeInt(key) + SerializeString(value)
  }

  /** What a page reads back for an inserted pair: the value cut to its length modulo 256. */
  function StoredItem(key: int32, value: seq<byte>): Item
  {
    Item(key, value[..|value| % 256])
  }

  function InsertAt<T>(s: seq<T>, p: nat, x: T): (r: seq<T>)
    requires p <= |s|
    ensures |r| == |s| + 1
  {
    s[..p] + [x] + s[p..]
  }

  /** `p` splits the keys into those not above `key` and those not below it. */
  predicate IsInsertPosition(keys: seq<int>, key: int, p: nat)
  {
    && p <= |keys|
    && (forall i :: 0 <= i < p ==> keys[i] <= key)
    && (forall i :: p <= i < |keys| ==> key <= keys[i])
  }

  /** `img` with `bytes` written at `offset`. */
  function WriteAt(img: seq<byte>, offset: nat, bytes: seq<byte>): (r: seq<byte>)
    requires offset + |bytes| <= |img|
    ensures |r| == |img|
  {
    img[..offset] + bytes + img[offset + |bytes|..]
  }

  /** Byte `k` after a write: from `bytes` inside the written range, unchanged outside it. */
  lemma WriteAtByte(img: seq<byte>, offset: nat, bytes: seq<byte>, k: nat)
    requires offset + |bytes| <= |img| && k < |img|
    ensures WriteAt(img, offset, bytes)[k] == if offset <= k < offset + |bytes| then bytes[k - offset] else img[k]
  {
  }

  /** Every byte after a write, as `WriteAtByte` gives one. */
  lemma WriteAtIndex(img: seq<byte>, offset: nat, bytes: seq<byte>)
    requires offset + |bytes| <= |img|
    ensures forall k :: 0 <= k < |img| ==>
      WriteAt(img, offset, bytes)[k] == if offset <= k < offset + |bytes| then bytes[k - offset] else img[k]
  {
  }

  /**
    The page after a non-split insert of `cell` with the new slot at position
    `p`: the slots before `p` stay, slot `p` holds the new cell's offset, the
    slots from `p` on move one slot to the right, the cell sits right below
    the old `upper`, and every other byte is unchanged.
   */
  function InsertedImage(img: seq<byte>, n: nat, upper: nat, p: nat, cell: seq<byte>): (r: seq<byte>)
    requires |img| == PageSize && p <= n
    requires SlotOffset(n + 1) + |cell| <= upper <= PageSize
    ensures |r| == PageSize
  {
    var cellStart := upper - |cell|;
    var slot := LittleEndian(cellStart, SlotWidth);
    seq(PageSize, k requires 0 <= k < PageSize =>
      if k < SlotOffset(p) then img[k]
      else if k < SlotOffset(p) + SlotWidth then slot[k - SlotOffset(p)]
      else if k < SlotOffset(n + 1) then img[k - SlotWidth]
      else if k < cellStart then img[k]
      else if k < upper then cell[k - cellStart]
      else img[k])
  }

  /** The memmove of `insert`: slots `p` to `n - 1` copied one slot to the right. */
  function ShiftSlots(img: seq<byte>, n: nat, p: nat): (r: seq<byte>)
    requires p <= n && SlotOffset(n + 1) <= |img|
    ensures |r| == |img|
  {
    if p < n then WriteAt(img, SlotOffset(p) + SlotWidth, img[SlotOffset(p) .. SlotOffset(n)]) else img
  }

  /** The directory writes of `insert`: the shift, then the new slot holding `cellStart`. */
  function SlotInserted(img: seq<byte>, n: nat, p: nat, cellStart: uint16): (r: seq<byte>)
    requires p <= n && SlotOffset(n + 1) <= |img|
    ensures |r| == |img|
  {
    WriteAt(ShiftSlots(img, n, p), SlotOffset(p), LittleEndian(cellStart, SlotWidth))
  }

  /** Byte `k` of the page after an insert, piece by piece. */
  lemma InsertedImageByte(img: seq<byte>, n: nat, upper: nat, p: nat, cell: seq<byte>, k: nat)
    requires |img| == PageSize && p <= n && k < PageSize
    requires SlotOffset(n + 1) + |cell| <= upper <= PageSize
    ensures var cellStart := upper - |cell|;
      InsertedImage(img, n, upper, p, cell)[k]
        == (if k < SlotOffset(p) then img[k]
            else if k < SlotOffset(p) + SlotWidth then LittleEndian(cellStart, SlotWidth)[k - SlotOffset(p)]
            else if k < SlotOffset(n + 1) then img[k - SlotWidth]
            else if k < cellStart then img[k]
            else if k < upper then cell[k - cellStart]
            else img[k])
  {
  }

  /** Two page images with equal bytes from `o` on decode the same cell at `o`. */
  lemma CellAtSuffix(img: seq<byte>, img': seq<byte>, o: nat)
    requires |img| == |img'| && o <= |img|
    requires forall k :: o <= k < |img| ==> img[k] == img'[k]
    requires CellInPage(img, o)
    ensures CellInPage(img', o) && CellAt(img', o) == CellAt(img, o)
  {
    assert img[o..] == img'[o..];
    assert img[o + SizeOfInt32..] == img'[o + SizeOfInt32..];
  }

  /** The cell written by an insert decodes to the key and the stored value. */
  lemma CellDecodes(key: int32, value: seq<byte>, rest: seq<byte>)
    requires |value| < Pow256(SizeOfSizeT)
    ensures CellInPage(Cell(key, value) + rest, 0)
    ensures CellAt(Cell(key, value) + rest, 0) == StoredItem(key, value)
  {
    var b := Cell(key, value) + rest;
    assert b[0..] == SerializeInt(key) + (SerializeString(value) + rest);
    assert b[SizeOfInt32..] == SerializeString(value) + rest;
    IntRoundTrip(key, SerializeString(value) + rest);
    StringRoundTrip(value, rest);
  }

  /** A cell decodes the same wherever the page puts it. */
  lemma CellAtShift(img: seq<byte>, o: nat)
    requires o <= |img| && CellInPage(img[o..], 0)
    ensures CellInPage(img, o) && CellAt(img, o) == CellAt(img[o..], 0)
  {
    assert img[o..][0..] == img[o..];
    assert img[o..][SizeOfInt32..] == img[o + SizeOfInt32..];
  }

  /** Inserting at an insert position keeps keys in order. */
  lemma InsertAtSorted(keys: seq<int>, key: int, p: nat)
    requires Sorted(keys) && IsInsertPosition(keys, key, p)
    ensures Sorted(InsertAt(keys, p, key))
  {
    var r := InsertAt(keys, p, key);
    forall i, j | 0 <= i < j < |r| ensures r[i] <= r[j] {
      if j < p {
        assert r[i] == keys[i] && r[j] == keys[j];
      } else if j == p {
        assert r[i] == keys[i] && r[j] == key;
      } else if i < p {
        assert r[i] == keys[i] && r[j] == keys[j - 1];
      } else if i == p {
        assert r[i] == key && r[j] == keys[j - 1];
      } else {
        assert r[i] == keys[i - 1] && r[j] == keys[j - 1];
      }
    }
  }

  /** Inserting a key that is absent at its insert position keeps keys strictly in order. */
  lemma InsertAtStrictlySorted(keys: seq<int>, key: int, p: nat)
    requires StrictlySorted(keys) && IsInsertPosition(keys, key, p)
    requires forall i :: 0 <= i < |keys| ==> keys[i] != key
    ensures StrictlySorted(InsertAt(keys, p, key))
  {
    var r := InsertAt(keys, p, key);
    forall i, j | 0 <= i < j < |r| ensures r[i] < r[j] {
      if j < p {
        assert r[i] == keys[i] && r[j] == keys[j];
      } else if j == p {
        assert r[i] == keys[i] && r[j] == key;
      } else if i < p {
        assert r[i] == keys[i] && r[j] == keys[j - 1];
      } else if i == p {
        assert r[i] == key && r[j] == keys[j - 1];
      } else {
        assert r[i] == keys[i - 1] && r[j] == keys[j - 1];
      }
    }
  }

  lemma KeysOfInsertAt(items: seq<Item>, p: nat, x: Item)
    requires p <= |items|
    ensures KeysOf(InsertAt(items, p, x)) == InsertAt(KeysOf(items), p, x.key as int)
  {
    var l := KeysOf(InsertAt(items, p, x));
    var r := InsertAt(KeysOf(items), p, x.key as int);
    assert |l| == |r|;
    forall i | 0 <= i < |l| ensures l[i] == r[i] {
      if i < p {
      } else if i == p {
      } else {
        assert InsertAt(items, p, x)[i] == items[i - 1];
      }
    }
  }

  /**
    Writing a cell into the free space below `upper` leaves the directory and
    the existing cells alone: the page stays well formed with the lower
    `upper` and holds the same items.
   */
  lemma WriteCellKeepsPage(img: seq<byte>, img': seq<byte>, n: nat, upper: nat, cell: seq<byte>, upper': nat)
    requires ValidPage(img, n, upper)
    requires SlotOffset(n) + |cell| <= upper
    requires img' == WriteAt(img, upper - |cell|, cell) && upper' == upper - |cell|
    ensures ValidPage(img', n, upper') && PageItems(img', n) == PageItems(img, n)
  {
    WriteAtIndex(img, upper - |cell|, cell);
    forall i | 0 <= i < n
      ensures SlotAt(img', i) == SlotAt(img, i)
      ensures CellInPage(img', SlotAt(img', i)) && CellAt(img', SlotAt(img', i)) == CellAt(img, SlotAt(img, i))
    {
      assert img'[SlotOffset(i) .. SlotOffset(i) + SlotWidth] == img[SlotOffset(i) .. SlotOffset(i) + SlotWidth];
      CellAtSuffix(img, img', SlotAt(img, i));
    }
    assert PageItems(img', n) == PageItems(img, n);
  }

  /** The two little-endian bytes of a 16-bit offset. */
  lemma LittleEndianTwo(x: nat)
    requires x < 0x1_0000
    ensures LittleEndian(x, SlotWidth) == [x % 256, x / 256]
  {
  }

  /** The directory of the page after an insert. */
  lemma InsertedImageSlots(img: seq<byte>, n: nat, upper: nat, p: nat, cell: seq<byte>)
    requires |img| == PageSize && p <= n
    requires SlotOffset(n + 1) + |cell| <= upper <= PageSize
    ensures forall i :: 0 <= i < p ==> SlotAt(InsertedImage(img, n, upper, p, cell), i) == SlotAt(img, i)
    ensures SlotAt(InsertedImage(img, n, upper, p, cell), p) == upper - |cell|
    ensures forall i :: p < i <= n ==> SlotAt(InsertedImage(img, n, upper, p, cell), i) == SlotAt(img, i - 1)
  {
    var r := InsertedImage(img, n, upper, p, cell);
    var cellStart := upper - |cell|;
    forall i | 0 <= i < p ensures SlotAt(r, i) == SlotAt(img, i) {
      InsertedImageByte(img, n, upper, p, cell, SlotOffset(i));
      InsertedImageByte(img, n, upper, p, cell, SlotOffset(i) + 1);
      SlotAtBytes(r, i);
      SlotAtBytes(img, i);
    }
    LittleEndianTwo(cellStart);
    InsertedImageByte(img, n, upper, p, cell, SlotOffset(p));
    InsertedImageByte(img, n, upper, p, cell, SlotOffset(p) + 1);
    SlotAtBytes(r, p);
    forall i | p < i <= n ensures SlotAt(r, i) == SlotAt(img, i - 1) {
      InsertedImageByte(img, n, upper, p, cell, SlotOffset(i));
      InsertedImageByte(img, n, upper, p, cell, SlotOffset(i) + 1);
      SlotAtBytes(r, i);
      SlotAtBytes(img, i - 1);
    }
  }

  /** The cells already on the page read the same after an insert. */
  lemma InsertedImageOldCells(img: seq<byte>, n: nat, upper: nat, p: nat, cell: seq<byte>)
    requires |img| == PageSize && p <= n
    requires SlotOffset(n + 1) + |cell| <= upper <= PageSize
    ensures var r := InsertedImage(img, n, upper, p, cell);
      forall o :: upper <= o && CellInPage(img, o) ==> CellInPage(r, o) && CellAt(r, o) == CellAt(img, o)
  {
    var r := InsertedImage(img, n, upper, p, cell);
    forall k | upper <= k < PageSize ensures r[k] == img[k] {
      InsertedImageByte(img, n, upper, p, cell, k);
    }
    forall o | upper <= o && CellInPage(img, o)
      ensures CellInPage(r, o) && CellAt(r, o) == CellAt(img, o)
    {
      CellAtSuffix(img, r, o);
    }
  }

  /** The new cell reads back as the key and the stored value. */
  lemma InsertedImageNewCell(img: seq<byte>, n: nat, upper: nat, p: nat, key: int32, value: seq<byte>)
    requires |img| == PageSize && p <= n && |value| < Pow256(SizeOfSizeT)
    requires SlotOffset(n + 1) + |Cell(key, value)| <= upper <= PageSize
    ensures var r := InsertedImage(img, n, upper, p, Cell(key, value));
      var cellStart := upper - |Cell(key, value)|;
      CellInPage(r, cellStart) && CellAt(r, cellStart) == StoredItem(key, value)
  {
    var cell := Cell(key, value);
    var cellStart := upper - |cell|;
    var r := InsertedImage(img, n, upper, p, cell);
    assert r[cellStart..] == cell + img[upper..] by {
      forall k | cellStart <= k < PageSize ensures r[k] == (cell + img[upper..])[k - cellStart] {
        InsertedImageByte(img, n, upper, p, cell, k);
      }
    }
    CellDecodes(key, value, img[upper..]);
    CellAtShift(r, cellStart);
  }

  /** Slot `i` of the page after an insert, and the item it points at. */
  lemma InsertedImageSlotItem(img: seq<byte>, n: nat, upper: nat, p: nat, key: int32, value: seq<byte>, i: nat)
    requires |img| == PageSize && p <= n && i <= n && |value| < Pow256(SizeOfSizeT)
    requires SlotOffset(n + 1) + |Cell(key, value)| <= upper <= PageSize
    requires SlotsReadable(img, n) && forall j :: 0 <= j < n ==> upper <= SlotAt(img, j)
    ensures var r := InsertedImage(img, n, upper, p, Cell(key, value));
      && upper - |Cell(key, value)| <= SlotAt(r, i)
      && CellInPage(r, SlotAt(r, i))
      && CellAt(r, SlotAt(r, i))
           == if i < p then CellAt(img, SlotAt(img, i))
              else if i == p then StoredItem(key, value)
              else CellAt(img, SlotAt(img, i - 1))
  {
    var cell := Cell(key, value);
    InsertedImageSlots(img, n, upper, p, cell);
    if i == p {
      InsertedImageNewCell(img, n, upper, p, key, value);
    } else {
      InsertedImageOldCells(img, n, upper, p, cell);
    }
  }

  /** Every slot of the page after an insert points at a readable cell in the new cell area. */
  lemma InsertedImageReadable(img: seq<byte>, n: nat, upper: nat, p: nat, key: int32, value: seq<byte>)
    requires |img| == PageSize && p <= n && |value| < Pow256(SizeOfSizeT)
    requires SlotOffset(n + 1) + |Cell(key, value)| <= upper <= PageSize
    requires SlotsReadable(img, n) && forall i :: 0 <= i < n ==> upper <= SlotAt(img, i)
    ensures var r := InsertedImage(img, n, upper, p, Cell(key, value));
      && SlotsReadable(r, n + 1)
      && forall i :: 0 <= i < n + 1 ==> upper - |Cell(key, value)| <= SlotAt(r, i)
  {
    var r := InsertedImage(img, n, upper, p, Cell(key, value));
    forall i | 0 <= i < n + 1
      ensures upper - |Cell(key, value)| <= SlotAt(r, i) && CellInPage(r, SlotAt(r, i))
    {
      InsertedImageSlotItem(img, n, upper, p, key, value, i);
    }
  }

  /** The items of the page after an insert: the old ones with the new pair at `p`. */
  lemma InsertedImageItemsAre(img: seq<byte>, n: nat, upper: nat, p: nat, key: int32, value: seq<byte>)
    requires |img| == PageSize && p <= n && |value| < Pow256(SizeOfSizeT)
    requires SlotOffset(n + 1) + |Cell(key, value)| <= upper <= PageSize
    requires SlotsReadable(img, n) && forall i :: 0 <= i < n ==> upper <= SlotAt(img, i)
    ensures var r := InsertedImage(img, n, upper, p, Cell(key, value));
      SlotsReadable(r, n + 1)
      && PageItems(r, n + 1) == InsertAt(PageItems(img, n), p, StoredItem(key, value))
  {
    var r := InsertedImage(img, n, upper, p, Cell(key, value));
    var want := InsertAt(PageItems(img, n), p, StoredItem(key, value));
    InsertedImageReadable(img, n, upper, p, key, value);
    var got := PageItems(r, n + 1);
    forall i | 0 <= i < n + 1 ensures got[i] == want[i] {
      InsertedImageSlotItem(img, n, upper, p, key, value, i);
      PageItemAt(r, n + 1, i);
      if i < p {
        PageItemAt(img, n, i);
      } else if i > p {
        PageItemAt(img, n, i - 1);
      }
      InsertAtIndex(PageItems(img, n), p, StoredItem(key, value), i);
    }
    assert got == want;
  }

  /** Item `j` of a page is the cell its slot points at. */
  lemma PageItemAt(img: seq<byte>, n: nat, j: nat)
    requires SlotsReadable(img, n) && j < n
    ensures PageItems(img, n)[j] == CellAt(img, SlotAt(img, j))
  {
  }

  /** Element `i` of a sequence with `x` inserted at `p`. */
  lemma InsertAtIndex<T>(s: seq<T>, p: nat, x: T, i: nat)
    requires p <= |s| && i <= |s|
    ensures InsertAt(s, p, x)[i] == if i < p then s[i] else if i == p then x else s[i - 1]
  {
  }

  /**
    A non-split insert, on the image: the page stays well formed, with one
    more item and `upper` lowered by the cell, and its items are the old ones
    with the new pair inserted at position `p`.
   */
  lemma InsertedImageItems(img: seq<byte>, n: nat, upper: nat, p: nat, key: int32, value: seq<byte>)
    requires ValidPage(img, n, upper)
    requires |value| < Pow256(SizeOfSizeT)
    requires IsInsertPosition(KeysOf(PageItems(img, n)), key, p)
    requires SlotOffset(n + 1) + |Cell(key, value)| <= upper
    ensures var r := InsertedImage(img, n, upper, p, Cell(key, value));
      && ValidPage(r, n + 1, upper - |Cell(key, value)|)
      && PageItems(r, n + 1) == InsertAt(PageItems(img, n), p, StoredItem(key, value))
  {
    var items := PageItems(img, n);
    InsertedImageReadable(img, n, upper, p, key, value);
    InsertedImageItemsAre(img, n, upper, p, key, value);
    KeysOfInsertAt(items, p, StoredItem(key, value));
    InsertAtSorted(KeysOf(items), key, p);
  }

  /**
    The cell writes and directory writes of `insert`, done on a well-formed
    page, give the inserted image, which is a well-formed page holding the
    old items with the new pair at `p`.
   */
  lemma InsertWritesItems(img0: seq<byte>, img: seq<byte>, n: nat, upper: nat, p: nat, key: int32, value: seq<byte>,
                          n': nat, upper': nat)
    requires ValidPage(img0, n, upper)
    requires |value| < Pow256(SizeOfSizeT)
    requires IsInsertPosition(KeysOf(PageItems(img0, n)), key, p)
    requires SlotOffset(n + 1) + |Cell(key, value)| <= upper
    requires img == SlotInserted(WriteAt(img0, upper - |Cell(key, value)|, Cell(key, value)), n, p, upper - |Cell(key, value)|)
    requires n' == n + 1 && upper' == upper - |Cell(key, value)|
    ensures img == InsertedImage(img0, n, upper, p, Cell(key, value))
    ensures ValidPage(img, n', upper')
    ensures PageItems(img, n') == InsertAt(PageItems(img0, n), p, StoredItem(key, value))
  {
    InsertImageSteps(img0, img, n, upper, p, Cell(key, value));
    InsertedImageItems(img0, n, upper, p, key, value);
  }

  /** With keys in strict order, a key names at most one value. */
  lemma DistinctKeysNameOneValue(items: seq<Item>, key: int32, v: seq<byte>, w: seq<byte>)
    requires StrictlySorted(KeysOf(items))
    requires Item(key, v) in items && Item(key, w) in items
    ensures v == w
  {
    var i :| 0 <= i < |items| && items[i] == Item(key, v);
    var j :| 0 <= j < |items| && items[j] == Item(key, w);
    assert KeysOf(items)[i] == KeysOf(items)[j];
  }

  /** After an insert at an insert position, the old items and the new one are all on the page. */
  lemma InsertKeepsItems(items: seq<Item>, p: nat, x: Item)
    requires p <= |items|
    ensures x in InsertAt(items, p, x)
    ensures forall y :: y in items ==> y in InsertAt(items, p, x)
    ensures multiset(InsertAt(items, p, x)) == multiset(items) + multiset{x}
  {
    assert items == items[..p] + items[p..];
    assert InsertAt(items, p, x)[p] == x;
  }

  /**
    Inserting a key absent from strictly ordered items at its insert
    position keeps the keys strictly ordered, keeps every old item, and makes
    the new item the only one under its key.
   */
  lemma InsertAbsentKey(items: seq<Item>, p: nat, x: Item)
    requires StrictlySorted(KeysOf(items)) && !HasKey(items, x.key as int)
    requires IsInsertPosition(KeysOf(items), x.key as int, p)
    ensures StrictlySorted(KeysOf(InsertAt(items, p, x)))
    ensures HasKey(InsertAt(items, p, x), x.key as int)
    ensures forall y :: y in items ==> y in InsertAt(items, p, x)
    ensures forall v :: Item(x.key, v) in InsertAt(items, p, x) ==> v == x.value
  {
    var keys := KeysOf(items);
    var r := InsertAt(items, p, x);
    forall i | 0 <= i < |keys| ensures keys[i] != x.key as int {
      assert items[i].key == keys[i];
    }
    InsertAtStrictlySorted(keys, x.key as int, p);
    KeysOfInsertAt(items, p, x);
    InsertKeepsItems(items, p, x);
    assert r[p] == x;
    forall v | Item(x.key, v) in r ensures v == x.value {
      DistinctKeysNameOneValue(r, x.key, v, x.value);
    }
  }

  /** In sorted keys, everything up to a key below `key` is below `key`. */
  lemma SortedBelow(keys: seq<int>, m: nat, key: int)
    requires Sorted(keys) && m < |keys| && keys[m] < key
    ensures forall i :: 0 <= i <= m ==> keys[i] < key
  {
  }

  /** In sorted keys, everything from a key above `key` on is above `key`. */
  lemma SortedAbove(keys: seq<int>, m: nat, key: int)
    requires Sorted(keys) && m < |keys| && key < keys[m]
    ensures forall i :: m <= i < |keys| ==> key < keys[i]
  {
  }

  /** A position in sorted keys is an insert position for its own key. */
  lemma SortedAround(keys: seq<int>, m: nat)
    requires Sorted(keys) && m < |keys|
    ensures IsInsertPosition(keys, keys[m], m)
  {
  }

  // ----- the page object -----

  class BTreeNode {
    /** `_header`. */
    var header: Header
    /** The page's bytes. */
    const data: array<byte>

    ghost predicate Valid()
      reads this, data
    {
      data.Length == PageSize && ValidPage(data[..], header.itemsCount, header.upper)
    }

    /** The items of the page, in slot order. */
    ghost function Items(): seq<Item>
      reads this, data
      requires Valid()
    {
      PageItems(data[..], header.itemsCount)
    }

    /**
      A freshly handed-out page as the single-leaf test prepares it: zeroed
      memory, `upper` at the page end, the padding marker, and `pid` set to
      the identifier the arena gave it.
     */
    constructor (pid: uint32)
      ensures Valid() && fresh(data)
      ensures header == Header(0, 0, 0, 0, PageSize, 0, 0, 0, 0, pid, 0, PageHeaderPadding)
      ensures Items() == []
    {
      data := new byte[PageSize](_ => 0);
      header := Header(0, 0, 0, 0, PageSize, 0, 0, 0, 0, pid, 0, PageHeaderPadding);
    }

    /** `SetNodeType(&_header._info, nodeType)`. */
    method SetNodeType(nodeType: bv16)
      modifies this
      ensures header == old(header).(info := WithNodeType(old(header).info, nodeType))
      ensures old(Valid()) ==> Valid() && Items() == old(Items())
    {
      header := header.(info := WithNodeType(header.info, nodeType));
    }

    /** memcpy of `bytes` to offset `dst` of the page. */
    method Memcpy(dst: nat, bytes: seq<byte>)
      requires dst + |bytes| <= data.Length
      modifies data
      ensures data[..] == WriteAt(old(data[..]), dst, bytes)
    {
      var i := 0;
      while i < |bytes|
        invariant 0 <= i <= |bytes|
        invariant forall k :: 0 <= k < data.Length ==>
          data[k] == if dst <= k < dst + i then bytes[k - dst] else old(data[k])
      {
        data[dst + i] := bytes[i];
        i := i + 1;
      }
      WriteAtIndex(old(data[..]), dst, bytes);
      assert data[..] == WriteAt(old(data[..]), dst, bytes);
    }

    /** memmove of `count` bytes from `src` up to `dst`, copying from the end. */
    method Memmove(dst: nat, src: nat, count: nat)
      requires src <= dst && dst + count <= data.Length
      modifies data
      ensures data[..] == WriteAt(old(data[..]), dst, old(data[..])[src .. src + count])
    {
      var k := count;
      while k > 0
        invariant 0 <= k <= count
        invariant forall i :: 0 <= i < data.Length ==>
          data[i] == if dst + k <= i < dst + count then old(data[src + i - dst]) else old(data[i])
      {
        k := k - 1;
        assert data[src + k] == old(data[src + k]);
        data[dst + k] := data[src + k];
      }
      ghost var moved := old(data[..])[src .. src + count];
      WriteAtIndex(old(data[..]), dst, moved);
      assert data[..] == WriteAt(old(data[..]), dst, moved);
    }

    /** `getItemKeyValue(index, nullptr)`: the key of the item in slot `index`. */
    function KeyAt(index: nat): (key: int32)
      reads this, data
      requires Valid() && index < header.itemsCount
      ensures key as int == KeysOf(Items())[index]
      ensures SerializeInt(key) == data[SlotAt(data[..], index) .. SlotAt(data[..], index) + SizeOfInt32]
    {
      GetItemKeyValue(data[..], header.itemsCount, index).key
    }

    /**
      `findItemInsertPosition`: where a new key's slot goes.  Every key before
      the position is at most `key` and every key from it on is at least
      `key`; either all keys before it are strictly smaller or the position
      holds `key` itself.  `append` tells whether it is past the last slot.
     */
    method FindItemInsertPosition(key: int32) returns (pos: uint16, append: bool)
      requires Valid()
      ensures pos <= header.itemsCount && (append <==> pos == header.itemsCount)
      ensures IsInsertPosition(KeysOf(Items()), key, pos)
      ensures (forall i :: 0 <= i < pos ==> KeysOf(Items())[i] < key)
        || (pos < header.itemsCount && KeysOf(Items())[pos] == key)
    {
      ghost var keys := KeysOf(Items());
      var n: int := header.itemsCount;
      var low := 0;
      var high := n - 1;
      append := false;
      if high < 0 {
        append := true;
        pos := 0;
      } else if key > KeyAt(high) {
        append := true;
        pos := high + 1;
        SortedBelow(keys, high, key);
      } else if key < KeyAt(low) {
        pos := low;
        SortedAbove(keys, low, key);
      } else {
        var p := SearchInsertPosition(key);
        pos := p;
      }
    }

    /**
      The binary search of `findItemInsertPosition`, for a key no greater than
      the last key: it stops at the first slot whose key is not below `key`, or
      at a slot holding `key`.
     */
    method SearchInsertPosition(key: int32) returns (pos: nat)
      requires Valid() && 0 < header.itemsCount
      requires key <= KeysOf(Items())[header.itemsCount - 1]
      ensures pos < header.itemsCount
      ensures IsInsertPosition(KeysOf(Items()), key, pos)
      ensures (forall i :: 0 <= i < pos ==> KeysOf(Items())[i] < key) || KeysOf(Items())[pos] == key
    {
      ghost var keys := KeysOf(Items());
      var n: int := header.itemsCount;
      var low, high := 0, n - 1;
      var mid := (low + high) / 2;
      while low <= high
        invariant 0 <= low < n && -1 <= high < n && low <= high + 1
        invariant forall i :: 0 <= i < low ==> keys[i] < key
        invariant forall i :: high < i < n ==> key < keys[i]
      {
        mid := (low + high) / 2;
        var midKey := KeyAt(mid);
        if key > midKey {
          SortedBelow(keys, mid, key);
          low := mid + 1;
        } else if key < midKey {
          SortedAbove(keys, mid, key);
          high := mid - 1;
        } else {
          low := mid;
          SortedAround(keys, mid);
          break;
        }
      }
      pos := low;
    }

    /**
      `find` on a leaf.  For an insert it names this page; otherwise it
      returns this page's id and a value stored under `key` when there is one,
      and `InvalidPid` when there is none.
     */
    method Find(key: int32, forInsert: bool) returns (r: FindResult)
      requires Valid()
      ensures forInsert ==> r == FindResult(header.pid, [])
      ensures !forInsert && !HasKey(Items(), key) ==> r == FindResult(InvalidPid, [])
      ensures !forInsert && HasKey(Items(), key) ==> r.pid == header.pid && Item(key, r.data) in Items()
    {
      ghost var keys := KeysOf(Items());
      var n: int := header.itemsCount;
      var found := false;
      var low, mid, high := 0, -1, n - 1;
      while low <= high
        invariant 0 <= low <= n && -1 <= high < n
        invariant forall i :: 0 <= i < low ==> keys[i] < key
        invariant forall i :: high < i < n ==> key < keys[i]
      {
        mid := (low + high) / 2;
        var midKey := KeyAt(mid);
        if key > midKey {
          SortedBelow(keys, mid, key);
          low := mid + 1;
        } else if key < midKey {
          SortedAbove(keys, mid, key);
          high := mid - 1;
        } else {
          low := mid;
          found := true;
          break;
        }
      }
      // isLeaf() is always true, so only the leaf branch of find exists
      if !forInsert {
        if found {
          var item := GetItemKeyValue(data[..], n, low);
          assert Items()[low] == Item(key, item.value);
          r := FindResult(header.pid, item.value);
        } else {
          assert !HasKey(Items(), key) by {
            forall i | 0 <= i < n ensures Items()[i].key != key {
              assert keys[i] == Items()[i].key;
            }
          }
          r := FindResult(InvalidPid, []);
        }
      } else {
        r := FindResult(header.pid, []);
      }
    }

    /**
      `insert` on a leaf.  When the page needs a split nothing happens (the
      split branch only builds an exception object that it never throws).
      Otherwise the cell is written right below `upper`, `upper` drops by the
      cell's size, the slot goes in at the insert position with the later
      slots moved right, and the item count grows by one.  Either way the
      result is this page's id.
     */
    method Insert(key: int32, value: seq<byte>, foundNode: bool) returns (r: uint32, ghost pos: nat)
      requires Valid()
      requires !foundNode ==> header.pid != InvalidPid
      requires !NeedSplit(header.itemsCount, header.upper) ==> CellFits(header.itemsCount, header.upper, value)
      modifies this, data
      ensures Valid()
      ensures r == header.pid == old(header).pid
      ensures NeedSplit(old(header).itemsCount, old(header).upper) ==>
        header == old(header) && data[..] == old(data[..])
      ensures !NeedSplit(old(header).itemsCount, old(header).upper) ==>
        && IsInsertPosition(old(KeysOf(Items())), key, pos)
        && header == old(header).(itemsCount := old(header).itemsCount + 1,
                                  upper := old(header).upper - |Cell(key, value)|)
        && data[..] == InsertedImage(old(data[..]), old(header).itemsCount, old(header).upper, pos, Cell(key, value))
        && Items() == InsertAt(old(Items()), pos, StoredItem(key, value))
    {
      pos := 0;
      if !foundNode {
        // on a leaf, find names this page, so the insert is never handed to another page
        var findResult := Find(key, true);
        assert findResult.pid == header.pid;
      }
      if !NeedSplit(header.itemsCount, header.upper) {
        pos := InsertCell(key, value);
      }
      r := header.pid;
    }

    /** The non-split branch of `insert`. */
    method InsertCell(key: int32, value: seq<byte>) returns (ghost pos: nat)
      requires Valid() && CellFits(header.itemsCount, header.upper, value)
      modifies this, data
      ensures Valid()
      ensures IsInsertPosition(old(KeysOf(Items())), key, pos)
      ensures header == old(header).(itemsCount := old(header).itemsCount + 1,
                                     upper := old(header).upper - |Cell(key, value)|)
      ensures data[..] == InsertedImage(old(data[..]), old(header).itemsCount, old(header).upper, pos, Cell(key, value))
      ensures Items() == InsertAt(old(Items()), pos, StoredItem(key, value))
    {
      ghost var n: int, upper: int := header.itemsCount, header.upper;
      ghost var img0 := data[..];
      var cellStart := WriteCell(key, value);
      WriteCellKeepsPage(img0, data[..], header.itemsCount, upper, Cell(key, value), header.upper);
      var p, append := FindItemInsertPosition(key);
      InsertSlot(p, append, cellStart);
      pos := p;
      InsertWritesItems(img0, data[..], n, upper, p, key, value, header.itemsCount, header.upper);
    }

    /** The cell writes of `insert`: key and value right below `upper`, which drops past them. */
    method WriteCell(key: int32, value: seq<byte>) returns (cellStart: uint16)
      requires data.Length == PageSize && CapacityInv(header.itemsCount, header.upper)
      requires CellFits(header.itemsCount, header.upper, value)
      modifies this, data
      ensures cellStart == old(header).upper - |Cell(key, value)|
      ensures SlotOffset(header.itemsCount + 1) <= cellStart
      ensures header == old(header).(upper := cellStart)
      ensures data[..] == WriteAt(old(data[..]), cellStart, Cell(key, value))
    {
      ghost var img0 := data[..];
      CellFitsLeavesNoOverlap(header.itemsCount, header.upper, key, value);
      var keySize := SerializedSizeInt(key);
      var valueSize := SerializedSizeString(value);
      cellStart := header.upper - (keySize + valueSize);
      Memcpy(cellStart, SerializeInt(key));
      Memcpy(cellStart + keySize, SerializeString(value));
      WriteAtAdjacent(img0, cellStart, SerializeInt(key), SerializeString(value));
      header := header.(upper := cellStart);
    }

    /**
      The directory writes of `insert`: the later slots move right when the
      position is not past the end, the new slot takes `cellStart`, and the
      count grows by one.
     */
    method InsertSlot(p: uint16, append: bool, cellStart: uint16)
      requires data.Length == PageSize
      requires p <= header.itemsCount && (append <==> p == header.itemsCount)
      requires SlotOffset(header.itemsCount + 1) <= PageSize
      modifies this, data
      ensures header == old(header).(itemsCount := old(header).itemsCount + 1)
      ensures data[..] == SlotInserted(old(data[..]), old(header).itemsCount, p, cellStart)
    {
      var n: int := header.itemsCount;
      ghost var img := data[..];
      if !append && n - p > 0 {
        assert SlotOffset(p) + (n - p) * SlotWidth == SlotOffset(n);
        Memmove(SlotOffset(p) + SlotWidth, SlotOffset(p), (n - p) * SlotWidth);
      }
      assert data[..] == ShiftSlots(img, n, p);
      Memcpy(SlotOffset(p), LittleEndian(cellStart, SlotWidth));
      header := header.(itemsCount := n + 1);
    }
  }

  /** Two writes side by side are one write of both. */
  lemma WriteAtAdjacent(img: seq<byte>, offset: nat, a: seq<byte>, b: seq<byte>)
    requires offset + |a| + |b| <= |img|
    ensures WriteAt(WriteAt(img, offset, a), offset + |a|, b) == WriteAt(img, offset, a + b)
  {
    var l := WriteAt(WriteAt(img, offset, a), offset + |a|, b);
    var r := WriteAt(img, offset, a + b);
    WriteAtIndex(img, offset, a);
    WriteAtIndex(WriteAt(img, offset, a), offset + |a|, b);
    WriteAtIndex(img, offset, a + b);
    forall k | 0 <= k < |img| ensures l[k] == r[k] {
    }
  }

  /**
    The writes of `insert`, one after the other, produce the inserted image:
    the cell below `upper`, the later slots moved one slot right (when there
    are any), then the new slot.
   */
  lemma InsertImageSteps(img0: seq<byte>, img3: seq<byte>, n: nat, upper: nat, p: nat, cell: seq<byte>)
    requires |img0| == PageSize && p <= n
    requires SlotOffset(n + 1) + |cell| <= upper <= PageSize
    requires img3 == SlotInserted(WriteAt(img0, upper - |cell|, cell), n, p, upper - |cell|)
    ensures img3 == InsertedImage(img0, n, upper, p, cell)
  {
    var want := InsertedImage(img0, n, upper, p, cell);
    var img1 := WriteAt(img0, upper - |cell|, cell);
    var img2 := ShiftSlots(img1, n, p);
    forall k | 0 <= k < PageSize ensures img3[k] == want[k] {
      if k < SlotOffset(p) || SlotOffset(n + 1) <= k {
        InsertImageStepsOutside(img0, img1, img2, img3, n, upper, p, cell, k);
      } else if k < SlotOffset(p) + SlotWidth {
        InsertImageStepsSlot(img0, img1, img2, img3, n, upper, p, cell, k);
      } else {
        InsertImageStepsShifted(img0, img1, img2, img3, n, upper, p, cell, k);
      }
    }
  }

  /** Outside the directory's moved part, the shift and the new slot leave byte `k` as the cell write left it. */
  lemma InsertImageStepsOutside(img0: seq<byte>, img1: seq<byte>, img2: seq<byte>, img3: seq<byte>,
                                n: nat, upper: nat, p: nat, cell: seq<byte>, k: nat)
    requires |img0| == PageSize && p <= n && k < PageSize
    requires k < SlotOffset(p) || SlotOffset(n + 1) <= k
    requires SlotOffset(n + 1) + |cell| <= upper <= PageSize
    requires img1 == WriteAt(img0, upper - |cell|, cell)
    requires img2 == ShiftSlots(img1, n, p)
    requires img3 == WriteAt(img2, SlotOffset(p), LittleEndian(upper - |cell|, SlotWidth))
    ensures img3[k] == InsertedImage(img0, n, upper, p, cell)[k]
  {
    InsertedImageByte(img0, n, upper, p, cell, k);
    WriteAtByte(img2, SlotOffset(p), LittleEndian(upper - |cell|, SlotWidth), k);
    if p < n {
      WriteAtByte(img1, SlotOffset(p) + SlotWidth, img1[SlotOffset(p) .. SlotOffset(n)], k);
    }
    WriteAtByte(img0, upper - |cell|, cell, k);
  }

  /** The bytes of the new slot. */
  lemma InsertImageStepsSlot(img0: seq<byte>, img1: seq<byte>, img2: seq<byte>, img3: seq<byte>,
                             n: nat, upper: nat, p: nat, cell: seq<byte>, k: nat)
    requires |img0| == PageSize && p <= n && SlotOffset(p) <= k < SlotOffset(p) + SlotWidth
    requires SlotOffset(n + 1) + |cell| <= upper <= PageSize
    requires img1 == WriteAt(img0, upper - |cell|, cell)
    requires img2 == ShiftSlots(img1, n, p)
    requires img3 == WriteAt(img2, SlotOffset(p), LittleEndian(upper - |cell|, SlotWidth))
    ensures img3[k] == InsertedImage(img0, n, upper, p, cell)[k]
  {
    InsertedImageByte(img0, n, upper, p, cell, k);
    WriteAtByte(img2, SlotOffset(p), LittleEndian(upper - |cell|, SlotWidth), k);
  }

  /** The bytes of the slots moved one slot to the right. */
  lemma InsertImageStepsShifted(img0: seq<byte>, img1: seq<byte>, img2: seq<byte>, img3: seq<byte>,
                                n: nat, upper: nat, p: nat, cell: seq<byte>, k: nat)
    requires |img0| == PageSize && p <= n && SlotOffset(p) + SlotWidth <= k < SlotOffset(n + 1)
    requires SlotOffset(n + 1) + |cell| <= upper <= PageSize
    requires img1 == WriteAt(img0, upper - |cell|, cell)
    requires img2 == ShiftSlots(img1, n, p)
    requires img3 == WriteAt(img2, SlotOffset(p), LittleEndian(upper - |cell|, SlotWidth))
    ensures img3[k] == InsertedImage(img0, n, upper, p, cell)[k]
  {
    InsertedImageByte(img0, n, upper, p, cell, k);
    WriteAtByte(img2, SlotOffset(p), LittleEndian(upper - |cell|, SlotWidth), k);
    WriteAtByte(img1, SlotOffset(p) + SlotWidth, img1[SlotOffset(p) .. SlotOffset(n)], k);
    WriteAtByte(img0, upper - |cell|, cell, k - SlotWidth);
  }

  /** Keys strictly below `key` before `p` and strictly above it from `p` on leave `p` the only insert position. */
  lemma InsertPositionUnique(keys: seq<int>, key: int, p: nat, q: nat)
    requires p <= |keys|
    requires forall i :: 0 <= i < p ==> keys[i] < key
    requires forall i :: p <= i < |keys| ==> key < keys[i]
    requires IsInsertPosition(keys, key, q)
    ensures q == p
  {
    // name the keys at both positions so the bounds can be compared there
    var atQ := if q < |keys| then keys[q] else key;
    var atP := if p < |keys| then keys[p] else key;
  }

  /**
    One insert of the single-leaf test: a short value under a key that falls
    strictly between the keys before `p` and those from `p` on lands at `p`.
   */
  method ScenarioInsert(node: BTreeNode, key: int32, value: seq<byte>, p: nat)
    requires node.Valid() && node.header.pid != InvalidPid && |value| < 256
    requires !NeedSplit(node.header.itemsCount, node.header.upper)
    requires CellFits(node.header.itemsCount, node.header.upper, value)
    requires p <= node.header.itemsCount
    requires forall i :: 0 <= i < p ==> KeysOf(node.Items())[i] < key
    requires forall i :: p <= i < node.header.itemsCount ==> key < KeysOf(node.Items())[i]
    modifies node, node.data
    ensures node.Valid()
    ensures node.Items() == InsertAt(old(node.Items()), p, Item(key, value))
    ensures node.header == old(node.header).(itemsCount := old(node.header).itemsCount + 1,
                                             upper := old(node.header).upper - |Cell(key, value)|)
  {
    ghost var keys := KeysOf(node.Items());
    var pid, pos := node.Insert(key, value, false);
    InsertPositionUnique(keys, key, p, pos);
    assert value[..|value| % 256] == value;
  }

  /**
    The round trip the single-leaf test relies on: on a page with keys in
    strict order, a non-split insert of an absent key is followed by a find
    that returns this page's id and the stored value, and no old item is lost.
   */
  method InsertThenFind(node: BTreeNode, key: int32, value: seq<byte>) returns (r: FindResult)
    requires node.Valid() && node.header.pid != InvalidPid
    requires StrictlySorted(KeysOf(node.Items())) && !HasKey(node.Items(), key)
    requires !NeedSplit(node.header.itemsCount, node.header.upper)
    requires CellFits(node.header.itemsCount, node.header.upper, value)
    modifies node, node.data
    ensures node.Valid() && StrictlySorted(KeysOf(node.Items()))
    ensures forall y :: y in old(node.Items()) ==> y in node.Items()
    ensures r == FindResult(node.header.pid, StoredItem(key, value).value)
  {
    ghost var items := node.Items();
    var pid, pos := node.Insert(key, value, false);
    InsertAbsentKey(items, pos, StoredItem(key, value));
    r := node.Find(key, false);
  }

  /** The values the single-leaf test stores under the keys 5, 1 and 3. */
  const FiveValue: seq<byte> := [0x66, 0x69, 0x76, 0x65]
  const OneValue: seq<byte> := [0x6F, 0x6E, 0x65]
  const ThreeValue: seq<byte> := [0x74, 0x68, 0x72, 0x65, 0x65]

  /**
    The set-up of the single-leaf test: the page the first allocation of a
    fresh arena hands out, typed as a root leaf, with no items and the whole
    page free above the slots.
   */
  method NewRootLeaf() returns (node: BTreeNode)
    ensures fresh(node) && fresh(node.data)
    ensures node.Valid() && node.header.pid == 0
    ensures IsRootNode(node.header.info) && IsLeafNode(node.header.info) && !IsIntermediateNode(node.header.info)
    ensures node.header.itemsCount == 0 && node.header.upper == PageSize
    ensures node.Items() == []
  {
    var pid, _ := PageArena.FirstFreshPage();
    node := new BTreeNode(pid);
    node.SetNodeType(RootNode | LeafNode);
    RootLeafNodeType(0);
  }

  /**
    The page of the single-leaf test after its first two inserts, of the keys
    5 and then 1: their cells take 4 + 8 + 4 and 4 + 8 + 3 bytes.  Its pid is
    the first identifier a fresh 100-page arena hands out, which is 0.
   */
  method BuildFiveOne() returns (node: BTreeNode)
    ensures fresh(node) && fresh(node.data)
    ensures node.Valid() && node.header.pid == 0
    ensures IsRootNode(node.header.info) && IsLeafNode(node.header.info) && !IsIntermediateNode(node.header.info)
    ensures node.header.itemsCount == 2
    ensures node.header.upper == PageSize - 31
    ensures node.Items() == [Item(1, OneValue), Item(5, FiveValue)]
  {
    node := NewRootLeaf();
    ScenarioInsert(node, 5, FiveValue, 0);
    assert node.Items() == [Item(5, FiveValue)];
    ScenarioInsert(node, 1, OneValue, 0);
  }

  /**
    The page of the single-leaf test: a root leaf with the keys 5, 1 and 3
    inserted in that order holds them in key order.
   */
  method BuildOneLeaf() returns (node: BTreeNode)
    ensures node.Valid() && node.header.pid == 0
    ensures IsRootNode(node.header.info) && IsLeafNode(node.header.info) && !IsIntermediateNode(node.header.info)
    ensures node.Items() == [Item(1, OneValue), Item(3, ThreeValue), Item(5, FiveValue)]
  {
    node := BuildFiveOne();
    ScenarioInsert(node, 3, ThreeValue, 1);
  }

  /**
    On a page with keys in strict order, `find` of a stored key returns this
    page and exactly the value stored under it.
   */
  method FindStoredKey(node: BTreeNode, key: int32, value: seq<byte>) returns (r: FindResult)
    requires node.Valid() && StrictlySorted(KeysOf(node.Items())) && Item(key, value) in node.Items()
    ensures r == FindResult(node.header.pid, value)
  {
    ghost var items := node.Items();
    ghost var i :| 0 <= i < |items| && items[i] == Item(key, value);
    assert items[i].key == key;
    r := node.Find(key, false);
    DistinctKeysNameOneValue(items, key, r.data, value);
  }

  /** The keys of the single-leaf page are in strict order. */
  lemma OneLeafKeysStrictlySorted()
    ensures StrictlySorted(KeysOf([Item(1, OneValue), Item(3, ThreeValue), Item(5, FiveValue)]))
  {
    var keys := KeysOf([Item(1, OneValue), Item(3, ThreeValue), Item(5, FiveValue)]);
    assert keys == [1, 3, 5];
  }

  /**
    The lookups of the single-leaf test: every stored key is found on page 0
    with the value inserted under it.
   */
  method OneLeafFindsStoredKeys() returns (r1: FindResult, r3: FindResult, r5: FindResult)
    ensures r1 == FindResult(0, OneValue)
    ensures r3 == FindResult(0, ThreeValue)
    ensures r5 == FindResult(0, FiveValue)
  {
    var node := BuildOneLeaf();
    OneLeafKeysStrictlySorted();
    r1 := FindStoredKey(node, 1, OneValue);
    r3 := FindStoredKey(node, 3, ThreeValue);
    r5 := FindStoredKey(node, 5, FiveValue);
  }

  /** A lookup of the single-leaf test: an absent key is reported as not found. */
  method OneLeafMissesAbsentKey() returns (r: FindResult)
    ensures r == FindResult(InvalidPid, [])
  {
    var node := BuildOneLeaf();
    ghost var items := node.Items();
    assert !HasKey(items, 4) by {
      forall i | 0 <= i < |items| ensures items[i].key != 4 {
      }
    }
    r := node.Find(4, false);
  }
}
