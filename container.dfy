/** Opening a container: the envelope check (magic and declared size) and the reconstruction
    of the entry index from its 1024 sparse slots, rebased by the bias found at run time. */
module Container {

  import opened Bytes
  import opened WadTypes

  /** "ZWF!" */
  const Magic: seq<byte> := [0x5A, 0x57, 0x46, 0x21]
  const HeaderSize: nat := 256
  const BodySizeAt: nat := 248
  const SlotSize: nat := 8
  const IndexSize: nat := 1024 * 8
  /** Where the record right after the index block starts. */
  const FirstRecord: nat := HeaderSize + IndexSize

  /** The result of opening: the container and whether the trailing-data warning was raised. */
  datatype Opened = Opened(wad: Wad, trailingData: bool)

  /** One index slot: a little-endian pointer and an in-use flag; three bytes of padding are ignored. */
  datatype Slot = Slot(ptr: nat, inUse: bool)

  predicate HasMagic(data: seq<byte>): (b: bool)
    ensures b <==> |data| >= 4 && data[0] == 0x5A && data[1] == 0x57 && data[2] == 0x46 && data[3] == 0x21
  {
    |data| >= 4 && data[..4] == Magic
  }

  /** The container size the header promises: the header itself plus the body size at byte 248. */
  function DeclaredSize(data: seq<byte>): (n: nat)
    requires |data| >= BodySizeAt + 4
    ensures HeaderSize <= n < HeaderSize + TwoTo32
  {
    HeaderSize + U32Le(data[BodySizeAt..BodySizeAt + 4])
  }

  /** Opens a container held in `data` (the whole file, so `|data|` is its size on disk). */
  function ReadWad(data: seq<byte>): (r: Result<Opened>)
    ensures r.Ok? ==> r.value.wad.data == data
  {
    var header := Slice(data, 0, HeaderSize);
    var magic := Slice(header, 0, 4);
    if magic != Magic then Err(BadMagic(magic))
    else if |header| < BodySizeAt + 4 then Err(HeaderTooShort)
    else
      var wadSize := HeaderSize + U32Le(header[BodySizeAt..BodySizeAt + 4]);
      var actualSize := |data|;
      if actualSize < wadSize then Err(Truncated(wadSize, actualSize))
      else
        match ReadEntryPointers(data)
        case Err(e) => Err(e)
        case Ok(ptrs) => Ok(Opened(Wad(data, ptrs), actualSize > wadSize))
  }

  /** The slots of an index block, one per eight bytes ("<I?xxx"): any nonzero flag byte is true. */
  function DecodeSlots(block: seq<byte>): (slots: seq<Slot>)
    requires |block| % SlotSize == 0
    ensures |slots| == |block| / SlotSize
  {
    seq(|block| / SlotSize, i requires 0 <= i < |block| / SlotSize =>
      Slot(U32Le(block[SlotSize * i..SlotSize * i + 4]), block[SlotSize * i + 4] != 0))
  }

  /** The raw pointers of the live slots, in slot order (a filtering comprehension). */
  function LivePointers(slots: seq<Slot>): (ptrs: seq<nat>)
    ensures |ptrs| <= |slots|
  {
    if slots == [] then []
    else
      var n := |slots| - 1;
      LivePointers(slots[..n]) + (if slots[n].inUse then [slots[n].ptr] else [])
  }

  /** Reference definition: the indices of the live slots, which are exactly the in-use slots,
      strictly increasing. */
  function LiveIndices(slots: seq<Slot>): (idx: seq<nat>)
    ensures forall k :: 0 <= k < |idx| ==> idx[k] < |slots| && slots[idx[k]].inUse
    ensures forall k, l :: 0 <= k < l < |idx| ==> idx[k] < idx[l]
    ensures forall i :: 0 <= i < |slots| && slots[i].inUse ==> i in idx
  {
    if slots == [] then []
    else
      var n := |slots| - 1;
      var front := LiveIndices(slots[..n]);
      assert forall k :: 0 <= k < |front| ==> slots[front[k]] == slots[..n][front[k]];
      front + (if slots[n].inUse then [n] else [])
  }

  /** The smallest element of a non-empty sequence. */
  function MinOf(s: seq<nat>): (m: nat)
    requires |s| > 0
    ensures m in s
    ensures forall k :: 0 <= k < |s| ==> m <= s[k]
  {
    if |s| == 1 then s[0]
    else
      var rest := MinOf(s[1..]);
      assert forall k :: 1 <= k < |s| ==> s[k] == s[1..][k - 1];
      if s[0] <= rest then s[0] else rest
  }

  /** The index block: the (at most) 8192 bytes read right after the header. */
  function IndexBlock(data: seq<byte>): (block: seq<byte>)
    ensures |block| <= IndexSize
    ensures |data| >= FirstRecord ==> |block| == IndexSize
  {
    Slice(data, HeaderSize, HeaderSize + IndexSize)
  }

  /** The bias between raw and absolute offsets: the smallest live pointer minus the offset of
      the byte right after the index block. */
  function Bias(live: seq<nat>): (b: int)
    requires |live| > 0
    ensures forall k :: 0 <= k < |live| ==> live[k] - b >= FirstRecord
    ensures exists k :: 0 <= k < |live| && live[k] - b == FirstRecord
  {
    var m := MinOf(live);
    assert m in live;
    m - IndexSize - HeaderSize
  }

  /** Rebuilds the entry index: the live pointers, in slot order, each minus the bias. */
  function ReadEntryPointers(data: seq<byte>): (r: Result<seq<nat>>)
    ensures r.Ok? ==> forall k :: 0 <= k < |r.value| ==> r.value[k] >= FirstRecord
  {
    var block := IndexBlock(data);
    if |block| % SlotSize != 0 then Err(IndexMisaligned)
    else
      var live := LivePointers(DecodeSlots(block));
      if |live| == 0 then Err(NoLiveSlots)
      else
        var bias := Bias(live);
        if bias == 0 then Err(ZeroBias)
        else Ok(seq(|live|, k requires 0 <= k < |live| => (live[k] - bias) as nat))
  }

  // ---------------------------------------------------------------------------------------
  // Envelope properties

  /** A wrong magic is reported before the size field or the index is looked at, and only then. */
  lemma MagicCheckedFirst(data: seq<byte>)
    ensures ReadWad(data).Err? && ReadWad(data).error.BadMagic? <==> !HasMagic(data)
    ensures !HasMagic(data) ==> ReadWad(data) == Err(BadMagic(data[..if |data| < 4 then |data| else 4]))
  {
    var magic := Slice(Slice(data, 0, HeaderSize), 0, 4);
    SliceOfSlice(data, 0, HeaderSize, 0, 4);
    if |data| >= 4 {
      SliceInside(data, 0, 4);
    } else {
      assert magic == data[..|data|];
      assert |magic| != |Magic|;
    }
  }

  /** A file with the magic but too short to hold the size field at bytes 248..251 fails there. */
  lemma ShortHeader(data: seq<byte>)
    requires HasMagic(data) && |data| < BodySizeAt + 4
    ensures ReadWad(data) == Err(HeaderTooShort)
  {
    SliceOfSlice(data, 0, HeaderSize, 0, 4);
    SliceInside(data, 0, 4);
  }

  /** The size check: a file shorter than it declares is refused, a longer one opens with the
      trailing-data warning, and one of exactly the declared size opens silently. */
  lemma SizeCheck(data: seq<byte>)
    requires HasMagic(data) && |data| >= BodySizeAt + 4
    ensures |data| < DeclaredSize(data) ==> ReadWad(data) == Err(Truncated(DeclaredSize(data), |data|))
    ensures |data| >= DeclaredSize(data) ==>
      (ReadWad(data).Ok? <==> ReadEntryPointers(data).Ok?)
    ensures |data| >= DeclaredSize(data) && ReadEntryPointers(data).Err? ==>
      ReadWad(data) == Err(ReadEntryPointers(data).error)
    ensures ReadWad(data).Ok? ==>
      && |data| >= DeclaredSize(data)
      && ReadWad(data).value.trailingData == (|data| > DeclaredSize(data))
      && ReadWad(data).value.wad.entryPointers == ReadEntryPointers(data).value
  {
    var header := Slice(data, 0, HeaderSize);
    SliceOfSlice(data, 0, HeaderSize, 0, 4);
    SliceInside(data, 0, 4);
    SliceOfSlice(data, 0, HeaderSize, BodySizeAt, BodySizeAt + 4);
    SliceInside(data, BodySizeAt, BodySizeAt + 4);
    assert |header| >= BodySizeAt + 4;
    assert header[BodySizeAt..BodySizeAt + 4] == Slice(header, BodySizeAt, BodySizeAt + 4);
  }

  // ---------------------------------------------------------------------------------------
  // Index properties

  /** The live pointers are exactly the pointers of the in-use slots, one each, in slot order. */
  lemma {:induction false} LivePointersFollowSlots(slots: seq<Slot>)
    ensures |LivePointers(slots)| == |LiveIndices(slots)|
    ensures forall k :: 0 <= k < |LivePointers(slots)| ==>
      LivePointers(slots)[k] == slots[LiveIndices(slots)[k]].ptr
  {
    if slots != [] {
      var n := |slots| - 1;
      LivePointersFollowSlots(slots[..n]);
      var front := LiveIndices(slots[..n]);
      forall k | 0 <= k < |front| ensures slots[front[k]] == slots[..n][front[k]] { }
    }
  }

  /** Only the first five bytes of a slot matter: blocks that differ only in the three padding
      bytes of their slots decode to the same slots. */
  lemma PaddingIgnored(b1: seq<byte>, b2: seq<byte>)
    requires |b1| == |b2| && |b1| % SlotSize == 0
    requires forall i :: 0 <= i < |b1| && i % SlotSize < 5 ==> b1[i] == b2[i]
    ensures DecodeSlots(b1) == DecodeSlots(b2)
  {
    var n := |b1| / SlotSize;
    forall k | 0 <= k < n ensures DecodeSlots(b1)[k] == DecodeSlots(b2)[k] {
      forall i | SlotSize * k <= i < SlotSize * k + 5 ensures b1[i] == b2[i] {
        assert i % SlotSize == i - SlotSize * k;
      }
      assert b1[SlotSize * k..SlotSize * k + 4] == b2[SlotSize * k..SlotSize * k + 4];
    }
  }

  /** A full-size file has an index of exactly 1024 slots. */
  lemma FullIndex(data: seq<byte>)
    requires |data| >= FirstRecord
    ensures |IndexBlock(data)| % SlotSize == 0 && |DecodeSlots(IndexBlock(data))| == 1024
  {
  }

  /** What a successful index reconstruction yields: one offset per in-use slot, in slot order,
      each that slot's raw pointer minus the bias; nothing is sorted or removed. */
  lemma IndexIsLiveSlotsInOrder(data: seq<byte>)
    requires ReadEntryPointers(data).Ok?
    ensures |IndexBlock(data)| % SlotSize == 0
    ensures var slots := DecodeSlots(IndexBlock(data));
      var ptrs := ReadEntryPointers(data).value;
      && |LivePointers(slots)| > 0
      && |ptrs| == |LiveIndices(slots)|
      && forall k :: 0 <= k < |ptrs| ==>
           ptrs[k] == slots[LiveIndices(slots)[k]].ptr - Bias(LivePointers(slots))
  {
    LivePointersFollowSlots(DecodeSlots(IndexBlock(data)));
  }

  /** The bias correction: the smallest live pointer lands right after the index block, and the
      distance between any two entries is the distance between their raw pointers. */
  lemma BiasCorrection(data: seq<byte>)
    requires ReadEntryPointers(data).Ok?
    ensures var live := LivePointers(DecodeSlots(IndexBlock(data)));
      var ptrs := ReadEntryPointers(data).value;
      && |ptrs| == |live|
      && FirstRecord in ptrs
      && (forall k :: 0 <= k < |ptrs| ==> FirstRecord <= ptrs[k])
      && (forall j, k :: 0 <= j < |ptrs| && 0 <= k < |ptrs| ==> ptrs[j] as int - ptrs[k] as int == live[j] as int - live[k] as int)
  {
    var live := LivePointers(DecodeSlots(IndexBlock(data)));
    var ptrs := ReadEntryPointers(data).value;
    var m := MinOf(live);
    var k :| 0 <= k < |live| && live[k] == m;
    assert ptrs[k] == FirstRecord;
  }

  /** The two ways the reconstruction fails on an aligned block: no live slot at all, or a
      smallest live pointer that already equals the offset right after the index block. */
  lemma IndexFailures(data: seq<byte>)
    requires |IndexBlock(data)| % SlotSize == 0
    ensures var live := LivePointers(DecodeSlots(IndexBlock(data)));
      && (|live| == 0 <==> ReadEntryPointers(data) == Err(NoLiveSlots))
      && (|live| > 0 && MinOf(live) == FirstRecord <==> ReadEntryPointers(data) == Err(ZeroBias))
      && (|live| > 0 && MinOf(live) != FirstRecord <==> ReadEntryPointers(data).Ok?)
  {
  }

  /** A short index block whose length is not a multiple of eight cannot be unpacked. */
  lemma MisalignedIndex(data: seq<byte>)
    ensures |IndexBlock(data)| % SlotSize != 0 <==> ReadEntryPointers(data) == Err(IndexMisaligned)
  {
  }

  /** With exactly one live slot, its entry is rebased to the byte right after the index block
      (unless its raw pointer is already there, which is refused). */
  lemma SingleLiveSlot(data: seq<byte>, i: nat)
    requires |data| >= FirstRecord
    requires var slots := DecodeSlots(IndexBlock(data));
      i < |slots| && slots[i].inUse && forall j :: 0 <= j < |slots| && j != i ==> !slots[j].inUse
    ensures var slots := DecodeSlots(IndexBlock(data));
      ReadEntryPointers(data) == if slots[i].ptr == FirstRecord then Err(ZeroBias) else Ok([FirstRecord])
  {
    var slots := DecodeSlots(IndexBlock(data));
    OneLivePointer(slots, i);
    var live := LivePointers(slots);
    assert MinOf(live) == slots[i].ptr;
    if slots[i].ptr != FirstRecord {
      var rebased := seq(|live|, k requires 0 <= k < |live| => (live[k] - Bias(live)) as nat);
      assert Bias(live) == slots[i].ptr - FirstRecord;
      assert |rebased| == 1 && rebased[0] == FirstRecord;
      assert rebased == [FirstRecord];
    }
  }

  lemma {:induction false} OneLivePointer(slots: seq<Slot>, i: nat)
    requires i < |slots| && slots[i].inUse
    requires forall j :: 0 <= j < |slots| && j != i ==> !slots[j].inUse
    ensures LivePointers(slots) == [slots[i].ptr]
  {
    var n := |slots| - 1;
    if n == i {
      NoLivePointer(slots[..n]);
    } else {
      OneLivePointer(slots[..n], i);
    }
  }

  lemma {:induction false} NoLivePointer(slots: seq<Slot>)
    requires forall j :: 0 <= j < |slots| ==> !slots[j].inUse
    ensures LivePointers(slots) == []
  {
    if slots != [] {
      NoLivePointer(slots[..|slots| - 1]);
    }
  }
}
