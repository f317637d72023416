/** Virtual-to-physical address resolution: decoding the entries of the
    Linux `/proc/self/pagemap` file (one little-endian 64-bit word per
    virtual page, the page frame number in bits 0-54 and "page present" in
    bit 63), the range lookups built on it, and the emulated resolver. */
module VirtToPhy {
  import opened MachineInt
  import opened Wrappers

  /** Bytes per pagemap entry. */
  const PFN_MASK_SIZE: nat := 8
  /** The page frame number occupies bits 0-54 of an entry: `(1 << 55) - 1`. */
  const PFN_MASK: u64 := 0x7F_FFFF_FFFF_FFFF
  /** Bit 63 says whether the page is present in memory. */
  const PAGE_PRESENT_BIT: u8 := 63

  /** The masks are the powers of two the source writes them as. */
  lemma MaskValues()
    ensures PFN_MASK == Pow2(55) - 1 && Pow2(PAGE_PRESENT_BIT) == 0x8000_0000_0000_0000
  {
    Pow2Values();
  }

  // ------------------------------------------------------- entries

  /** `256^n`, the number of values `n` bytes can hold. */
  function Pow256(n: nat): (r: nat)
    ensures r >= 1
  {
    if n == 0 then 1 else 0x100 * Pow256(n - 1)
  }

  /** `u64::from_ne_bytes` on x86: the first byte is the least significant. */
  function LittleEndian(bs: seq<u8>): (r: nat)
    ensures r < Pow256(|bs|)
  {
    if bs == [] then 0 else bs[0] + 0x100 * LittleEndian(bs[1..])
  }

  /** The `n` bytes of `v`, least significant first. */
  function LittleEndianBytes(v: nat, n: nat): (r: seq<u8>)
    ensures |r| == n
  {
    if n == 0 then [] else [v % 0x100] + LittleEndianBytes(v / 0x100, n - 1)
  }

  /** Reading back the bytes of a value that fits in them gives the value. */
  lemma {:induction false} LittleEndianRoundTrip(v: nat, n: nat)
    requires v < Pow256(n)
    ensures LittleEndian(LittleEndianBytes(v, n)) == v
  {
    if n > 0 {
      var bs := LittleEndianBytes(v, n);
      assert bs[1..] == LittleEndianBytes(v / 0x100, n - 1);
      LittleEndianRoundTrip(v / 0x100, n - 1);
    }
  }

  /** The entry word made of eight bytes. */
  function EntryWord(bs: seq<u8>): (r: u64)
    requires |bs| == PFN_MASK_SIZE
  {
    assert Pow256(8) == 0x1_0000_0000_0000_0000;
    LittleEndian(bs)
  }

  /** `(entry >> PAGE_PRESENT_BIT) & 1 != 0`; the shift is written as the
      division by `2^63` it is. */
  predicate IsPresent(entry: u64)
  {
    And(entry / 0x8000_0000_0000_0000, 1) == 1
  }

  /** An entry is present exactly when its top bit is set. */
  lemma PresentIsTopBit(entry: u64)
    ensures IsPresent(entry) <==> entry >= 0x8000_0000_0000_0000
  {
    var top := entry / 0x8000_0000_0000_0000;
    assert top == 0 || top == 1;
    assert And(0, 1) == 0;
    assert And(1, 1) == 1 by { assert And(0, 0) == 0; }
  }

  /** `entry & PFN_MASK` is the entry's low 55 bits. */
  lemma PfnIsLowBits(entry: u64)
    ensures And(entry, PFN_MASK) == entry % 0x80_0000_0000_0000
  {
    MaskValues();
    Pow2Values();
    AndLowMask(entry, 55);
  }

  /** The body shared by both `virt_to_phys` implementations of the Linux
      resolver: an absent page is `None`; a present one is its frame number
      times the page size plus the offset `inPage`, in unchecked `u64`
      arithmetic. */
  function DecodeEntry(entry: u64, pageSize: u64, inPage: u64): Option<u64>
  {
    if !IsPresent(entry) then None
    else Some(WrapU64(And(entry, PFN_MASK) * pageSize + inPage))
  }

  /** A decoded entry is absent exactly when bit 63 is clear; a present one
      that does not wrap lies on frame `entry % 2^55` at offset `inPage`. */
  lemma DecodeEntrySpec(entry: u64, pageSize: u64, inPage: u64)
    requires inPage < pageSize
    ensures DecodeEntry(entry, pageSize, inPage).None? <==> entry < 0x8000_0000_0000_0000
    ensures var pfn := entry % 0x80_0000_0000_0000;
      DecodeEntry(entry, pageSize, inPage).Some? && pfn * pageSize + inPage <= U64_MAX ==>
        var phys := DecodeEntry(entry, pageSize, inPage).value;
        phys == pfn * pageSize + inPage && phys / pageSize == pfn && phys % pageSize == inPage
  {
    PresentIsTopBit(entry);
    PfnIsLowBits(entry);
    var pfn := entry % 0x80_0000_0000_0000;
    if IsPresent(entry) && pfn * pageSize + inPage <= U64_MAX {
      DivModUnique(pfn * pageSize + inPage, pageSize, pfn, inPage);
    }
  }

  /** The entry the kernel writes for a present page on frame `pfn`,
      decodes back to that frame. */
  lemma DecodePresentEntry(pfn: nat, pageSize: u64, inPage: u64)
    requires pfn < 0x80_0000_0000_0000 && inPage < pageSize && pfn * pageSize + inPage <= U64_MAX
    ensures 0x8000_0000_0000_0000 + pfn <= U64_MAX
    ensures DecodeEntry(0x8000_0000_0000_0000 + pfn, pageSize, inPage) == Some(pfn * pageSize + inPage)
  {
    var entry := 0x8000_0000_0000_0000 + pfn;
    DivModUnique(entry, 0x80_0000_0000_0000, 0x100, pfn);
    DecodeEntrySpec(entry, pageSize, inPage);
  }

  // ------------------------------------------------------- single lookup

  /** Seeks to `offset` and reads one entry: fewer than eight bytes left is
      `UnexpectedEof`, as `read_exact` reports it. */
  function EntryAt(file: seq<u8>, offset: nat): (r: Result<u64, IoErrorKind>)
  {
    if offset + PFN_MASK_SIZE > |file| then Err(UnexpectedEof)
    else Ok(EntryWord(file[offset..offset + PFN_MASK_SIZE]))
  }

  /** Byte offset of the entry for the page holding `virtAddr`. */
  function EntryOffset(virtAddr: u64, pageSize: u64): u64
    requires pageSize >= 1
  {
    WrapU64(PFN_MASK_SIZE * (virtAddr / pageSize))
  }

  /** `PhysAddrResolverLinuxX86::virt_to_phys`. `pagemap` is the result of
      opening `/proc/self/pagemap`: its contents, or the error of the open. */
  function VirtToPhys(pagemap: Result<seq<u8>, IoErrorKind>, pageSize: u64, virtAddr: u64): Result<Option<u64>, IoErrorKind>
    requires pageSize >= 1
  {
    match pagemap
    case Err(e) => Err(e)
    case Ok(file) =>
      match EntryAt(file, EntryOffset(virtAddr, pageSize))
      case Err(e) => Err(e)
      case Ok(entry) => Ok(DecodeEntry(entry, pageSize, virtAddr % pageSize))
  }

  /** A lookup fails only when the file could not be opened or is too short
      to hold the page's entry, which it reads from byte `8 * (virtAddr /
      pageSize)`, and decodes that entry with the in-page offset of
      `virtAddr` (`DecodeEntrySpec` says what the decoding yields). */
  lemma VirtToPhysSpec(pagemap: Result<seq<u8>, IoErrorKind>, pageSize: u64, virtAddr: u64)
    requires pageSize >= 1 && PFN_MASK_SIZE * (virtAddr / pageSize) <= U64_MAX
    ensures var offset := PFN_MASK_SIZE * (virtAddr / pageSize);
      var r := VirtToPhys(pagemap, pageSize, virtAddr);
      && (pagemap.Err? ==> r == Err(pagemap.error))
      && (pagemap.Ok? ==>
            && (r.Err? <==> offset + PFN_MASK_SIZE > |pagemap.value|)
            && (r.Err? ==> r.error == UnexpectedEof)
            && (r.Ok? ==>
                  r.value == DecodeEntry(EntryWord(pagemap.value[offset..offset + PFN_MASK_SIZE]),
                                         pageSize, virtAddr % pageSize)))
  {
  }

  // ------------------------------------------------------- range lookups

  /** The address of page `x` of a range in the default `virt_to_phys_range`:
      `start.saturating_add(x * page_size)`, the product unchecked. */
  function PageAddr(startAddr: u64, pageSize: u64, x: nat): u64
  {
    SatAdd64(startAddr, WrapU64(x * pageSize))
  }

  /** The lookups of pages `x..n`, collected into a `Result`: the first
      failing lookup's error, or every page's answer in order. */
  function CollectLookups(resolve: u64 -> Result<Option<u64>, IoErrorKind>, startAddr: u64, pageSize: u64,
                          x: nat, n: nat): (r: Result<seq<Option<u64>>, IoErrorKind>)
    requires x <= n
    ensures r.Ok? <==> forall y :: x <= y < n ==> resolve(PageAddr(startAddr, pageSize, y)).Ok?
    ensures r.Ok? ==> |r.value| == n - x
    ensures r.Ok? ==> forall y :: x <= y < n ==> r.value[y - x] == resolve(PageAddr(startAddr, pageSize, y)).value
    ensures r.Err? ==> exists y :: (x <= y < n && resolve(PageAddr(startAddr, pageSize, y)) == Err(r.error) &&
      forall z :: x <= z < y ==> resolve(PageAddr(startAddr, pageSize, z)).Ok?)
    decreases n - x
  {
    if x == n then Ok([])
    else
      match resolve(PageAddr(startAddr, pageSize, x))
      case Err(e) => Err(e)
      case Ok(v) =>
        match CollectLookups(resolve, startAddr, pageSize, x + 1, n)
        case Err(e) => Err(e)
        case Ok(rest) => Ok([v] + rest)
  }

  /** The default `AddressResolver::virt_to_phys_range`, over the
      resolver's `virt_to_phys` given as `resolve`. */
  function DefaultVirtToPhysRange(resolve: u64 -> Result<Option<u64>, IoErrorKind>, pageSize: u64,
                                  startAddr: u64, numPages: u64): Result<seq<Option<u64>>, IoErrorKind>
  {
    CollectLookups(resolve, startAddr, pageSize, 0, numPages)
  }

  /** Entry `i` of the entries read from byte `offset`, decoded with the
      in-page offset `inPage`. */
  function DecodedAt(file: seq<u8>, offset: nat, i: nat, pageSize: u64, inPage: u64): Option<u64>
    requires offset + PFN_MASK_SIZE * (i + 1) <= |file|
  {
    DecodeEntry(EntryWord(file[offset + PFN_MASK_SIZE * i..offset + PFN_MASK_SIZE * (i + 1)]), pageSize, inPage)
  }

  /** `read_exact` of `length` bytes from byte `offset`: an empty read
      succeeds wherever the file ends; otherwise the file must hold all
      `length` bytes, or the read fails with `UnexpectedEof`. */
  function ReadExact(file: seq<u8>, offset: nat, length: nat): (r: Result<seq<u8>, IoErrorKind>)
    ensures r.Err? <==> length > 0 && offset + length > |file|
    ensures r.Err? ==> r.error == UnexpectedEof
    ensures r.Ok? ==> |r.value| == length && (length > 0 ==> r.value == file[offset..offset + length])
  {
    if length == 0 then Ok([])
    else if offset + length > |file| then Err(UnexpectedEof)
    else Ok(file[offset..offset + length])
  }

  /** A slice of a slice is a slice. */
  lemma SliceOfSlice(s: seq<u8>, lo: nat, hi: nat, i: nat, j: nat)
    requires lo <= hi <= |s| && i <= j <= hi - lo
    ensures s[lo..hi][i..j] == s[lo + i..lo + j]
  {
    assert forall k :: 0 <= k < j - i ==> s[lo..hi][i..j][k] == s[lo + i..lo + j][k];
  }

  /** `PhysAddrResolverLinuxX86::virt_to_phys_range`: one read of all the
      range's entries, from the entry of `startAddr`'s page on, decoded in
      page order with the in-page offset of `startAddr` for every page. With
      no pages the read is of zero bytes and succeeds wherever the file
      ends, as `read_exact` on an empty buffer does. (A byte count that
      wraps to 0 needs a page count the source's `Vec::with_capacity`
      already panics on.) */
  method X86VirtToPhysRange(pagemap: Result<seq<u8>, IoErrorKind>, pageSize: u64, startAddr: u64, numPages: u64)
    returns (r: Result<seq<Option<u64>>, IoErrorKind>)
    requires pageSize >= 1
    ensures pagemap.Err? ==> r == Err(pagemap.error)
    ensures pagemap.Ok? ==>
      var offset := EntryOffset(startAddr, pageSize);
      var length := WrapU64(PFN_MASK_SIZE * numPages);
      && (r.Err? <==> length > 0 && offset + length > |pagemap.value|)
      && (r.Err? ==> r.error == UnexpectedEof)
      && (r.Ok? ==> |r.value| == length / PFN_MASK_SIZE)
      && (r.Ok? ==> forall i :: 0 <= i < |r.value| ==>
            r.value[i] == DecodedAt(pagemap.value, offset, i, pageSize, startAddr % pageSize))
  {
    if pagemap.Err? {
      return Err(pagemap.error);
    }
    var file := pagemap.value;
    var offset := EntryOffset(startAddr, pageSize);
    var length := WrapU64(PFN_MASK_SIZE * numPages);
    var read := ReadExact(file, offset, length);
    if read.Err? {
      return Err(read.error);
    }
    var buf := read.value;
    var phyAddrs: seq<Option<u64>> := [];
    for i := 0 to length / PFN_MASK_SIZE
      invariant |phyAddrs| == i
      invariant forall j :: 0 <= j < i ==> phyAddrs[j] == DecodedAt(file, offset, j, pageSize, startAddr % pageSize)
    {
      SliceOfSlice(file, offset, offset + length, PFN_MASK_SIZE * i, PFN_MASK_SIZE * (i + 1));
      var chunk := buf[PFN_MASK_SIZE * i..PFN_MASK_SIZE * (i + 1)];
      var entry := EntryWord(chunk);
      if !IsPresent(entry) {
        phyAddrs := phyAddrs + [None];
        continue;
      }
      var physAddr := WrapU64(And(entry, PFN_MASK) * pageSize + startAddr % pageSize);
      phyAddrs := phyAddrs + [Some(physAddr)];
    }
    r := Ok(phyAddrs);
  }

  /** Entry `i` of the x86 range read is the entry a single lookup of page
      `i` of the range reads, with the same in-page offset: where nothing
      wraps, the range lookup agrees with page-by-page lookups. */
  lemma RangeEntryIsPageLookup(file: seq<u8>, pageSize: u64, startAddr: u64, i: nat)
    requires pageSize >= 1
    requires startAddr + i * pageSize <= U64_MAX
    requires PFN_MASK_SIZE * (startAddr / pageSize + i + 1) <= |file|
    requires PFN_MASK_SIZE * (startAddr / pageSize + i) <= U64_MAX
    ensures VirtToPhys(Ok(file), pageSize, startAddr + i * pageSize) ==
      Ok(DecodedAt(file, EntryOffset(startAddr, pageSize), i, pageSize, startAddr % pageSize))
  {
    var q, m := startAddr / pageSize, startAddr % pageSize;
    var addr := startAddr + i * pageSize;
    assert addr == (q + i) * pageSize + m by {
      assert startAddr == q * pageSize + m;
      assert (q + i) * pageSize == q * pageSize + i * pageSize;
    }
    DivModUnique(addr, pageSize, q + i, m);
    var off := PFN_MASK_SIZE * (q + i);
    assert EntryOffset(addr, pageSize) == off;
    assert EntryOffset(startAddr, pageSize) + PFN_MASK_SIZE * i == off;
  }

  // ------------------------------------------------------- emulation

  /** `PhysAddrResolverEmulated`: physical addresses are offsets into the
      emulator's heap. */
  datatype PhysAddrResolverEmulated = PhysAddrResolverEmulated(heapStartAddr: u64)
  {
    /** `virt_addr.checked_sub(heap_start_addr)`, never an error. */
    function VirtToPhys(virtAddr: u64): (r: Result<Option<u64>, IoErrorKind>)
      ensures r.Ok?
      ensures r.value.Some? <==> virtAddr >= heapStartAddr
      ensures r.value.Some? ==> heapStartAddr + r.value.value == virtAddr
    {
      if virtAddr >= heapStartAddr then Ok(Some(virtAddr - heapStartAddr)) else Ok(None)
    }
  }

  /** The emulated resolver's range lookup (the default one) never fails,
      and resolves every page of the range in order. */
  lemma EmulatedRangeNeverFails(resolver: PhysAddrResolverEmulated, pageSize: u64, startAddr: u64, numPages: u64)
    ensures var r := DefaultVirtToPhysRange(resolver.VirtToPhys, pageSize, startAddr, numPages);
      r.Ok? && |r.value| == numPages &&
      forall x :: 0 <= x < numPages ==>
        var addr := PageAddr(startAddr, pageSize, x);
        (r.value[x].Some? <==> addr >= resolver.heapStartAddr) &&
        (r.value[x].Some? ==> r.value[x].value == addr - resolver.heapStartAddr)
  {
    var r := DefaultVirtToPhysRange(resolver.VirtToPhys, pageSize, startAddr, numPages);
    assert forall y :: 0 <= y < numPages ==> resolver.VirtToPhys(PageAddr(startAddr, pageSize, y)).Ok?;
  }
}
