/** Two limits of the memory layout: flash of more than 8 MB, and VMs of 4 KB. */
module Limits {
  import opened Bits
  import opened Wrappers
  import opened Words
  import opened Tlb
  import opened Layout
  import opened Separation

  // ---------------------------------------------------------------- the flash

  const FLASH_ADDRESS := 0x1D00_0000  // where a guest sees its flash
  const LARGEST_FLASH := 0x80_0000    // two pages of 4 MB

  /** Up to 4 MB a page size divides half the address of the flash. */
  lemma FlashPair(k: nat, p: nat)
    requires p in {4096, 16384, 65536, 262144, 1048576, 4194304} && k < 2 * p
    ensures var va := FLASH_ADDRESS + k;
      && va / (2 * p) == FLASH_ADDRESS / (2 * p) && (va / p % 2 == 0 <==> k < p) && va % p == if k < p then k else k - p
  {
    var q := FLASH_ADDRESS / (2 * p);
    assert FLASH_ADDRESS == 2 * p * q;
    Divided(FLASH_ADDRESS + k, 2 * p, q, k);
    if k < p { PageOfPair(k, p, q, 0); } else { PageOfPair(k - p, p, q, 1); }
  }

  lemma PageOfPair(k: nat, p: nat, q: nat, odd: nat)
    requires k < p && odd < 2 && FLASH_ADDRESS == 2 * p * q
    ensures (FLASH_ADDRESS + odd * p + k) / p % 2 == odd && (FLASH_ADDRESS + odd * p + k) % p == k
  {
    assert 2 * p * q + odd * p == p * (2 * q + odd);
    Divided(FLASH_ADDRESS + odd * p + k, p, 2 * q + odd, k);
  }

  /** The fields of a row for a flash window at `base`. */
  ghost predicate MapsFlash(row: Row, base: nat, p: nat, dual: bool) {
    && 1 <= p && FLASH_START <= base && (base - KSEG0) % p == 0 && (base - KSEG0 + p) % p == 0
    && row.entrylo0 * PAGE == base - KSEG0 && row.entrylo1 * PAGE == (if dual then base - KSEG0 + p else 0)
    && row.entrylo0 < 0x10_0000 && row.entrylo1 < 0x10_0000
    && (row.pagemask + 1) * PAGE == p && row.pagemask <= 0xFFFF && row.entryhi == 0x1_D000
    && row.coherency == WRITE_BACK
  }

  /** The fields of a flash row whose window lies inside KSEG0. */
  lemma FlashFields(c: Choice, size: nat, base: nat)
    requires IsPage(c.page) && size == (if c.dual then 2 else 1) * c.page.value && 4096 <= c.page.value <= 16777216
    requires FLASH_START <= base && base + size <= KSEG1
    requires (base - KSEG0) % 4096 == 0 && c.page.value % 4096 == 0
    requires (base - KSEG0) % c.page.value == 0
    ensures MapsFlash(RowFor(c, size, base, FLASH_VIRTUAL), base, c.page.value, c.dual)
  {
    SmallMask(c.page);
    FlashHigh();
    NextMultiple(base - KSEG0, c.page.value);
    FlashFrames(c, size, base);
  }

  lemma FlashFrames(c: Choice, size: nat, base: nat)
    requires IsPage(c.page) && size == (if c.dual then 2 else 1) * c.page.value && 4096 <= c.page.value <= 16777216
    requires FLASH_START <= base && base + size <= KSEG1
    requires (base - KSEG0) % 4096 == 0 && c.page.value % 4096 == 0
    ensures var row := RowFor(c, size, base, FLASH_VIRTUAL);
      && row.entrylo0 * PAGE == base - KSEG0
      && row.entrylo1 * PAGE == (if c.dual then base - KSEG0 + c.page.value else 0)
      && row.entrylo0 < 0x10_0000 && row.entrylo1 < 0x10_0000
  {
    FrameOfRam(base - KSEG0, base);
    if c.dual { FrameOfRam(base - KSEG0 + c.page.value, base + size / 2); }
  }

  /** What the flash entry makes of byte `k` of the flash. */
  ghost predicate ShowsFlash(row: Row, base: nat, k: nat) {
    Translate(Written(EntryOf(row, 0, 0)), FLASH_ADDRESS + k) == Some(base - KSEG0 + k)
  }

  lemma SmallPagesShowFlash(row: Row, base: nat, p: nat, dual: bool, k: nat)
    requires MapsFlash(row, base, p, dual) && p in {4096, 16384, 65536, 262144, 1048576, 4194304}
    requires k < if dual then 2 * p else p
    ensures ShowsFlash(row, base, k)
  {
    FlashPair(k, p);
    FirstFrames(row, base, p, dual);
    FlashFound(row, base, p, dual, k, Translate(Written(EntryOf(row, 0, 0)), FLASH_ADDRESS + k));
  }

  lemma FlashFound(row: Row, base: nat, p: nat, dual: bool, k: nat, t: Option<nat>)
    requires MapsFlash(row, base, p, dual) && t == Translate(Written(EntryOf(row, 0, 0)), FLASH_ADDRESS + k)
    requires (FLASH_ADDRESS + k) / (2 * p) == FLASH_ADDRESS / (2 * p) && ((FLASH_ADDRESS + k) / p % 2 == 0 <==> k < p)
    requires (FLASH_ADDRESS + k) % p == (if k < p then k else k - p) && (p <= k ==> dual)
    requires FrameBase(row.entrylo0, p) == base - KSEG0 && row.entrylo0 != 0
    requires dual ==> FrameBase(row.entrylo1, p) == base - KSEG0 + p && row.entrylo1 != 0
    ensures t == Some(base - KSEG0 + k)
  {
    WrittenTranslates(EntryOf(row, 0, 0), FLASH_ADDRESS + k);
  }

  lemma FirstFrames(row: Row, base: nat, p: nat, dual: bool)
    requires MapsFlash(row, base, p, dual)
    ensures FrameBase(row.entrylo0, p) == base - KSEG0 && row.entrylo0 != 0
    ensures dual ==> FrameBase(row.entrylo1, p) == base - KSEG0 + p && row.entrylo1 != 0
  {
  }

  /** In a pair of 16 MB pages the address of the flash lies in the odd one. */
  lemma LargePageMissesFlash(row: Row, base: nat, dual: bool)
    requires MapsFlash(row, base, 16777216, dual)
    ensures !ShowsFlash(row, base, 0)
  {
    WrittenTranslates(EntryOf(row, 0, 0), FLASH_ADDRESS);
  }

  /** A guest finds its flash where it expects it exactly when the flash has at most 8 MB: a page of 16 MB is
      mapped from its own boundary, one page below the address of the flash. */
  lemma FlashShownIff(vms: seq<VmConf>, outs: seq<VmOut>, i: nat)
    requires Accepted(vms, outs) && i < |outs|
    requires FLASH_START <= outs[i].flashBase && outs[i].flashBase + outs[i].flashSize <= KSEG1
    ensures |outs[i].tlb| >= 2
    ensures (forall k: nat :: k < outs[i].flashSize ==> ShowsFlash(outs[i].tlb[1], outs[i].flashBase, k))
       <==> outs[i].flashSize <= LARGEST_FLASH
  {
    assert OutAt(vms, outs, i);
    MemSizesFit(outs[i].flashSize);
    PlacedFlashShownIff(outs[i].flashSize, CodeAfter(outs, i), outs[i].flashBase, outs[i].tlb[1]);
  }

  lemma PlacedFlashShownIff(size: nat, code: nat, base: nat, row: Row)
    requires Placed(size, code, FLASH_VIRTUAL, base, row) && FLASH_START <= base && base + size <= KSEG1 && code < WORD
    requires SmallPages(size)
    ensures (forall k: nat :: k < size ==> ShowsFlash(row, base, k)) <==> size <= LARGEST_FLASH
  {
    var c := PlacedFlashChoice(size, code, base, row);
    ChosenFlashShownIff(c, size, base);
  }

  lemma PlacedFlashChoice(size: nat, code: nat, base: nat, row: Row) returns (c: Choice)
    requires Placed(size, code, FLASH_VIRTUAL, base, row) && KSEG0 <= base && code < WORD
    ensures Covers(PAGE_SIZES, size, c) && IsPage(c.page) && row == RowFor(c, size, base, FLASH_VIRTUAL)
    ensures 4096 <= c.page.value && c.page.value % 4096 == 0 && (base - KSEG0) % 4096 == 0
    ensures (base - KSEG0) % c.page.value == 0
  {
    c :| Covers(PAGE_SIZES, size, c) && base == CalculateMemBase(c.page, code)
      && row == RowFor(c, size, base, FLASH_VIRTUAL);
    AlignedBase(c.page, code, base);
  }

  lemma ChosenFlashShownIff(c: Choice, size: nat, base: nat)
    requires IsPage(c.page) && size == (if c.dual then 2 else 1) * c.page.value && 4096 <= c.page.value <= 16777216
    requires FLASH_START <= base && base + size <= KSEG1
    requires (base - KSEG0) % 4096 == 0 && c.page.value % 4096 == 0
    requires (base - KSEG0) % c.page.value == 0
    ensures (forall k: nat :: k < size ==> ShowsFlash(RowFor(c, size, base, FLASH_VIRTUAL), base, k))
      <==> size <= LARGEST_FLASH
  {
    PageIsSmall(c.page);
    FlashFields(c, size, base);
    MappedFlashShownIff(RowFor(c, size, base, FLASH_VIRTUAL), base, size, c.page.value, c.dual);
  }

  lemma PageIsSmall(page: SizeDef)
    requires IsPage(page) && page.value <= 16777216
    ensures page.value in {4096, 16384, 65536, 262144, 1048576, 4194304, 16777216}
  {
    PageCases(page);
  }

  lemma MappedFlashShownIff(row: Row, base: nat, size: nat, p: nat, dual: bool)
    requires MapsFlash(row, base, p, dual) && size == if dual then 2 * p else p
    requires p in {4096, 16384, 65536, 262144, 1048576, 4194304, 16777216}
    ensures (forall k: nat :: k < size ==> ShowsFlash(row, base, k)) <==> size <= LARGEST_FLASH
  {
    if p == 16777216 {
      LargePageMissesFlash(row, base, dual);
    } else {
      forall k: nat | k < size ensures ShowsFlash(row, base, k) { SmallPagesShowFlash(row, base, p, dual, k); }
    }
  }

  /** Rounding up in 32-bit arithmetic aligns even where it wraps. */
  lemma AlignedBase(page: SizeDef, from: nat, base: nat)
    requires IsPage(page) && from < WORD && base == CalculateMemBase(page, from) && KSEG0 <= base
    ensures 4096 <= page.value && page.value % 4096 == 0 && (base - KSEG0) % 4096 == 0
    ensures (base - KSEG0) % page.value == 0
  {
    PageFacts(page);
    ClearsLowBits((from + page.value) % WORD, page);
    Aligned((from + page.value) % WORD, page.value);
    PageDivides(base - KSEG0, page.value);
  }

  lemma Aligned(a: nat, p: nat)
    requires 1 <= p
    ensures (a - a % p) % p == 0
  {
    var q := a / p;
    assert a == p * q + a % p;
    Divided(a - a % p, p, q, 0);
  }

  // ---------------------------------------------------------------- a VM on an odd page

  const SMALL := VmConf(Some("MEM_SIZE_4KB"), Some("MEM_SIZE_4KB"), [])

  const SMALL_PAGE := Choice(PAGE_SIZES[0], false)

  /** A 4 KB window stays where it is asked for when that is the start of a page. */
  lemma SmallIsPlaced(from: nat, va: nat, base: nat, row: Row)
    requires from % 4096 == 0
    ensures Placed(4096, from, va, base, row) <==> base == from && row == RowFor(SMALL_PAGE, 4096, from, va)
  {
    SmallCovers();
    if c :| Covers(PAGE_SIZES, 4096, c) && base == CalculateMemBase(c.page, from) && row == RowFor(c, 4096, base, va) {
      CoversIsUnique(4096, c, SMALL_PAGE);
    }
  }

  lemma SmallCovers()
    ensures Covers(PAGE_SIZES, 4096, SMALL_PAGE) && IsPage(SMALL_PAGE.page) && SMALL_PAGE.page.value == 4096
  {
    forall d | d in PAGE_SIZES ensures d.value != 2048 { PageCases(d); }
  }

  lemma SmallSize()
    ensures ValueOf(MEM_SIZES, "MEM_SIZE_4KB") == 4096
  {
    assert MEM_SIZES[0].name == "MEM_SIZE_4KB";
  }

  function SmallOut(ram: nat, flash: nat): VmOut {
    SmallPageIsPage();
    VmOut(ram, 4096, flash, 4096,
      [RowFor(SMALL_PAGE, 4096, ram, RAM_VIRTUAL), RowFor(SMALL_PAGE, 4096, flash, FLASH_VIRTUAL)])
  }

  lemma SmallPageIsPage()
    ensures IsPage(SMALL_PAGE.page)
  {
  }

  lemma SmallIsGenerated(data: nat, code: nat, out: VmOut)
    requires data % 4096 == 0 && code % 4096 == 0
    ensures Generated(SMALL, data, code, out) <==> out == SmallOut(data, code)
  {
    SmallSize();
    SmallIsPlaced(data, RAM_VIRTUAL, out.ramBase, if |out.tlb| > 0 then out.tlb[0] else SmallOut(0, 0).tlb[0]);
    SmallIsPlaced(code, FLASH_VIRTUAL, out.flashBase, if |out.tlb| > 1 then out.tlb[1] else SmallOut(0, 0).tlb[0]);
    if |out.tlb| == 2 { assert out.tlb == [out.tlb[0], out.tlb[1]]; }
  }

  const FIRST := SmallOut(0x8000_8000, 0x9D00_8000)
  const SECOND := SmallOut(0x8000_9000, 0x9D00_9000)

  /** A list of two VMs of 4 KB is accepted, in one way only; the second one's RAM starts on an odd page. */
  lemma SecondSmallVmIsOdd(outs: seq<VmOut>)
    ensures Accepted([SMALL, SMALL], outs) <==> |outs| == 2 && outs[0] == FIRST && outs[1] == SECOND
    ensures SECOND.ramBase == 0x8000_9000 && SECOND.ramSize == 4096
  {
    if |outs| == 2 {
      FirstIs(outs);
      if outs[0] == FIRST { SecondIs(outs); }
      PairAccepted([SMALL, SMALL], outs);
    }
  }

  lemma PairAccepted(vms: seq<VmConf>, outs: seq<VmOut>)
    requires |vms| == |outs| == 2
    ensures Accepted(vms, outs)
      <==> |outs[0].tlb| + |outs[1].tlb| <= TOTAL_TLB_ENTRIES && OutAt(vms, outs, 0) && OutAt(vms, outs, 1)
  {
    assert RowsOf(outs, 1) == |outs[0].tlb|;
    assert RowsOf(outs, 2) == |outs[0].tlb| + |outs[1].tlb|;
  }

  lemma FirstIs(outs: seq<VmOut>)
    requires |outs| == 2
    ensures OutAt([SMALL, SMALL], outs, 0) <==> outs[0] == FIRST
  {
    SmallIsGenerated(0x8000_8000, 0x9D00_8000, outs[0]);
  }

  lemma SecondIs(outs: seq<VmOut>)
    requires |outs| == 2 && outs[0] == FIRST
    ensures OutAt([SMALL, SMALL], outs, 1) <==> outs[1] == SECOND
  {
    assert DataAfter(outs, 1) == 0x8000_9000 && CodeAfter(outs, 1) == 0x9D00_9000;
    SmallIsGenerated(0x8000_9000, 0x9D00_9000, outs[1]);
  }

  /** No hypercall of that second VM finds its buffer through the temporary entry. */
  lemma SmallVmBufferIsMissed(address: nat, size: nat, index: nat, useCache: bool)
    requires KSEG0 <= address && 1 <= size && address + size <= KSEG0 + 4096
    ensures var e := TempEntry(address, 0x8000_9000, size, index, useCache);
      var va := TempAddress(address, 0x8000_9000, useCache);
      !ShowsAll(e, va, 0x8000_9000 - KSEG0 + (address - KSEG0), size)
  {
    TempAgreesIff(address, 0x8000_9000, size, index, useCache);
  }
}
