/** The flash windows the generator lays out, and the separation of the guests over all of their addresses. */
module FlashWindows {
  import opened Words
  import opened Wrappers
  import opened Bits
  import opened Tlb
  import opened Layout
  import opened Separation
  import opened Limits

  // ---------------------------------------------------------------- the windows

  /** `base` is the first multiple at or above `from` of the page size that covers `size`. */
  ghost predicate OnFirstPage(from: nat, base: nat, size: nat) {
    exists c :: Covers(PAGE_SIZES, size, c) && c.page.value >= 1 && base % c.page.value == 0
                && from <= base < from + c.page.value
  }

  /** Where the windows before VM `i` end. */
  function RamEnd(outs: seq<VmOut>, i: nat): nat
    requires i <= |outs|
  {
    if i == 0 then RAM_START else outs[i - 1].ramBase + outs[i - 1].ramSize
  }

  function FlashEnd(outs: seq<VmOut>, i: nat): nat
    requires i <= |outs|
  {
    if i == 0 then FLASH_START else outs[i - 1].flashBase + outs[i - 1].flashSize
  }

  lemma PlacedOnFirstPage(size: nat, from: nat, va: nat, base: nat, row: Row)
    requires Placed(size, from, va, base, row) && SmallPages(size) && from + 16777216 < WORD
    ensures OnFirstPage(from, base, size) && base + size <= from + STRIDE
  {
    var c :| Covers(PAGE_SIZES, size, c) && base == CalculateMemBase(c.page, from) && row == RowFor(c, size, base, va);
    PageFacts(c.page);
    CalculateMemBaseRoundsUp(c.page, from);
  }

  lemma FlashPlaced(vms: seq<VmConf>, outs: seq<VmOut>, n: nat, i: nat)
    requires AcceptedTo(vms, outs, n) && i < n <= |outs| && CodeAfter(outs, i) + 16777216 < WORD
    ensures OnFirstPage(CodeAfter(outs, i), outs[i].flashBase, outs[i].flashSize)
    ensures CodeAfter(outs, i) <= outs[i].flashBase
    ensures outs[i].flashBase + outs[i].flashSize <= CodeAfter(outs, i) + STRIDE
  {
    assert OutAt(vms, outs, i);
    MemSizesFit(outs[i].flashSize);
    PlacedOnFirstPage(outs[i].flashSize, CodeAfter(outs, i), FLASH_VIRTUAL, outs[i].flashBase, outs[i].tlb[1]);
  }

  lemma FlashAdvances(vms: seq<VmConf>, outs: seq<VmOut>, n: nat, code: nat, end: nat)
    requires AcceptedTo(vms, outs, n + 1) && n < |outs| && code == CodeAfter(outs, n) && code + STRIDE < WORD
    requires end == outs[n].flashBase + outs[n].flashSize
    ensures code <= outs[n].flashBase && end <= code + STRIDE
    ensures CodeAfter(outs, n + 1) == end == FlashEnd(outs, n + 1)
  {
    FlashPlaced(vms, outs, n + 1, n);
    NoWrap(end, code);
  }

  lemma NoWrap(end: nat, code: nat)
    requires end <= code + STRIDE < WORD
    ensures end % WORD == end
  {
  }

  /** Seven flashes and their padding do not wrap 32 bits. */
  lemma {:induction false} FlashRises(vms: seq<VmConf>, outs: seq<VmOut>, n: nat)
    requires AcceptedTo(vms, outs, n) && n <= |outs| && n <= MAX_VMS
    ensures FLASH_START <= CodeAfter(outs, n) == FlashEnd(outs, n) <= FLASH_START + n * STRIDE
    ensures n > 0 ==> FlashEnd(outs, n - 1) <= outs[n - 1].flashBase
  {
    if n > 0 {
      FlashRises(vms, outs, n - 1);
      FlashAdvances(vms, outs, n - 1, CodeAfter(outs, n - 1), outs[n - 1].flashBase + outs[n - 1].flashSize);
    }
  }

  lemma {:induction false} LaterFlashIsHigher(vms: seq<VmConf>, outs: seq<VmOut>, i: nat, j: nat)
    requires AcceptedTo(vms, outs, j + 1) && i < j < |outs| && j < MAX_VMS
    ensures outs[i].flashBase + outs[i].flashSize <= outs[j].flashBase
  {
    FlashRises(vms, outs, j + 1);
    FlashRises(vms, outs, j);
    if i < j - 1 { LaterFlashIsHigher(vms, outs, i, j - 1); }
  }

  /** Each flash starts on the first page of its size behind the flash before it, below 2^32, and so no two flashes
      overlap, for every list the generator accepts. */
  lemma FlashesAreDisjoint(vms: seq<VmConf>, outs: seq<VmOut>)
    requires Accepted(vms, outs)
    ensures |outs| <= MAX_VMS
    ensures forall i: nat :: i < |outs| ==>
      && OnFirstPage(FlashEnd(outs, i), outs[i].flashBase, outs[i].flashSize)
      && FLASH_START <= outs[i].flashBase && outs[i].flashBase + outs[i].flashSize < WORD
    ensures forall i, j :: 0 <= i < j < |outs| ==> outs[i].flashBase + outs[i].flashSize <= outs[j].flashBase
  {
    TwoRowsEach(vms, outs, |outs|);
    forall i: nat | i < |outs|
      ensures OnFirstPage(FlashEnd(outs, i), outs[i].flashBase, outs[i].flashSize)
        && FLASH_START <= outs[i].flashBase && outs[i].flashBase + outs[i].flashSize < WORD
    {
      FlashRises(vms, outs, i);
      FlashRises(vms, outs, i + 1);
      FlashPlaced(vms, outs, |outs|, i);
    }
    forall i, j | 0 <= i < j < |outs| ensures outs[i].flashBase + outs[i].flashSize <= outs[j].flashBase {
      LaterFlashIsHigher(vms, outs, i, j);
    }
  }

  /** Each RAM starts on the first page of its size behind the RAM before it. */
  lemma RamsArePacked(vms: seq<VmConf>, outs: seq<VmOut>, i: nat)
    requires Accepted(vms, outs) && i < |outs|
    ensures OnFirstPage(RamEnd(outs, i), outs[i].ramBase, outs[i].ramSize)
  {
    TwoRowsEach(vms, outs, |outs|);
    RamRises(vms, outs, i);
    assert OutAt(vms, outs, i);
    MemSizesFit(outs[i].ramSize);
    PlacedOnFirstPage(outs[i].ramSize, DataAfter(outs, i), RAM_VIRTUAL, outs[i].ramBase, outs[i].tlb[0]);
  }

  // ---------------------------------------------------------------- the physical bytes

  /** The last flash ends by KSEG1, where KSEG0 addresses end. */
  predicate FlashesFit(outs: seq<VmOut>) { FlashEnd(outs, |outs|) <= KSEG1 }

  predicate InWindowOf(base: nat, size: nat, pa: int) { base - KSEG0 <= pa < base - KSEG0 + size }

  /** A physical byte of the VM's RAM or flash. */
  predicate OwnByte(out: VmOut, pa: nat) {
    InWindowOf(out.ramBase, out.ramSize, pa) || InWindowOf(out.flashBase, out.flashSize, pa)
  }

  /** Whatever a flash row translates lies in its window. */
  lemma FlashRowStaysIn(row: Row, base: nat, p: nat, dual: bool, guestid: nat, index: nat, va: nat)
    requires MapsFlash(row, base, p, dual)
    ensures var t := Translate(Written(EntryOf(row, guestid, index)), va);
      t.Some? ==> InWindowOf(base, if dual then 2 * p else p, t.value)
  {
    WrittenTranslates(EntryOf(row, guestid, index), va);
    FirstFrames(row, base, p, dual);
  }

  lemma FlashBytes(vms: seq<VmConf>, outs: seq<VmOut>, i: nat, x: nat, va: nat)
    requires Accepted(vms, outs) && i < |outs| && FlashesFit(outs)
    ensures |outs[i].tlb| >= 2
    ensures var t := Translate(Written(EntryOf(outs[i].tlb[1], i + 1, x)), va);
      t.Some? ==> InWindowOf(outs[i].flashBase, outs[i].flashSize, t.value)
  {
    FlashEndsBy(vms, outs, i);
    assert OutAt(vms, outs, i);
    var size, base := outs[i].flashSize, outs[i].flashBase;
    MemSizesFit(size);
    var c := PlacedFlashChoice(size, CodeAfter(outs, i), base, outs[i].tlb[1]);
    FlashFields(c, size, base);
    FlashRowStaysIn(outs[i].tlb[1], base, c.page.value, c.dual, i + 1, x, va);
  }

  lemma FlashEndsBy(vms: seq<VmConf>, outs: seq<VmOut>, i: nat)
    requires Accepted(vms, outs) && i < |outs| && FlashesFit(outs)
    ensures FLASH_START <= outs[i].flashBase && outs[i].flashBase + outs[i].flashSize <= KSEG1
    ensures CodeAfter(outs, i) < WORD
  {
    FlashesAreDisjoint(vms, outs);
    FlashRises(vms, outs, i);
    assert i < |outs| - 1 ==> outs[i].flashBase + outs[i].flashSize <= outs[|outs| - 1].flashBase;
  }

  /** Whatever a VM's row translates, unless the user added it, is a byte of the VM's RAM or flash. */
  lemma RowStaysIn(vms: seq<VmConf>, outs: seq<VmOut>, i: nat, t: nat, x: nat, k: nat, pa: nat)
    requires Accepted(vms, outs) && i < |outs| && FlashesFit(outs) && NoMapCovers(outs[i], k) && t < |outs[i].tlb|
    requires Translate(Written(EntryOf(outs[i].tlb[t], i + 1, x)), k) == Some(pa)
    ensures OwnByte(outs[i], pa)
  {
    if t == 0 {
      WindowsAreDisjoint(vms, outs);
      FitTranslates(outs[i], i + 1, x, k);
    } else if t == 1 {
      FlashBytes(vms, outs, i, x, k);
    } else {
      TranslationIsAnonymous(outs[i].tlb[t], i + 1, x, k);
      assert false;
    }
  }

  /** Whatever a lookup under a VM's guest ID finds is a byte of the VM's own RAM or flash. */
  lemma LookupIsOwn(vms: seq<VmConf>, outs: seq<VmOut>, i: nat, k: nat, pa: nat)
    requires Accepted(vms, outs) && i < |outs| && FlashesFit(outs) && NoMapCovers(outs[i], k)
    requires Finds(Booted(outs), i + 1, k, pa)
    ensures OwnByte(outs[i], pa)
  {
    var x :| x in Booted(outs) && Booted(outs)[x].guestid == i + 1 && Translate(Booted(outs)[x], k) == Some(pa);
    BootedIs(outs, x);
    var j, t := EntryOwner(outs, |outs|, x);
    assert j == i;
    RowStaysIn(vms, outs, i, t, x, k, pa);
  }

  lemma OwnBytesAreApart(vms: seq<VmConf>, outs: seq<VmOut>, i: nat, j: nat, pa: nat)
    requires Accepted(vms, outs) && i < j < |outs|
    ensures !(OwnByte(outs[i], pa) && OwnByte(outs[j], pa))
  {
    WindowsAreDisjoint(vms, outs);
    FlashesAreDisjoint(vms, outs);
    BelowFlash(outs[i]);
    BelowFlash(outs[j]);
    assert outs[i].ramBase + outs[i].ramSize <= outs[j].ramBase;
    assert outs[i].flashBase + outs[i].flashSize <= outs[j].flashBase;
  }

  lemma BelowFlash(out: VmOut)
    requires RamFits(out)
    ensures out.ramBase + out.ramSize < FLASH_START
  {
    var p, dual :| RamRow(out.tlb[0], out.ramBase, out.ramSize, p, dual);
  }

  /** Separation over all addresses. Once all VMs are created, for every accepted list whose last flash ends by
      KSEG1: no address of one guest and no address of another, flash or RAM, ever find the same physical byte,
      wherever the rows the user added translate nothing. */
  lemma GuestsShareNoByte(vms: seq<VmConf>, outs: seq<VmOut>, i: nat, j: nat, k: nat, l: nat, pa: nat)
    requires Accepted(vms, outs) && i < |outs| && j < |outs| && FlashesFit(outs)
    requires NoMapCovers(outs[i], k) && NoMapCovers(outs[j], l)
    ensures Finds(Booted(outs), i + 1, k, pa) && Finds(Booted(outs), j + 1, l, pa) ==> i == j
  {
    if Finds(Booted(outs), i + 1, k, pa) && Finds(Booted(outs), j + 1, l, pa) && i != j {
      LookupIsOwn(vms, outs, i, k, pa);
      LookupIsOwn(vms, outs, j, l, pa);
      if i < j { OwnBytesAreApart(vms, outs, i, j, pa); } else { OwnBytesAreApart(vms, outs, j, i, pa); }
    }
  }

  // ---------------------------------------------------------------- what was asked for

  /** Every row of a VM is written, under the VM's guest ID, to an entry of its own that stays. */
  lemma RowStays(outs: seq<VmOut>, i: nat, t: nat, x: nat)
    requires i < |outs| && t < |outs[i].tlb| && x == RowsOf(outs, i) + t
    ensures x in Booted(outs) && Booted(outs)[x] == Written(EntryOf(outs[i].tlb[t], i + 1, x))
  {
    EntriesAt(outs, |outs|, i, t);
    BootedIs(outs, x);
  }

  /** Both sizes are those the VM names. */
  predicate HasSizes(conf: VmConf, out: VmOut) {
    && conf.ramSize.Some? && out.ramSize == ValueOf(MEM_SIZES, conf.ramSize.value)
    && conf.flashSize.Some? && out.flashSize == ValueOf(MEM_SIZES, conf.flashSize.value)
  }

  /** Every VM of an accepted list gets the sizes it names, and every row it adds stays in the TLB. */
  lemma ConfiguredAsAsked(vms: seq<VmConf>, outs: seq<VmOut>, i: nat, conf: VmConf, t: nat, x: nat)
    requires Accepted(vms, outs) && i < |vms| && conf == vms[i] && t < |conf.maps| && x == RowsOf(outs, i) + 2 + t
    ensures HasSizes(conf, outs[i])
    ensures x in Booted(outs) && Booted(outs)[x] == Written(EntryOf(conf.maps[t], i + 1, x))
  {
    assert OutAt(vms, outs, i);
    AddedRow(outs[i].tlb, conf.maps, t);
    RowStays(outs, i, 2 + t, x);
  }

  lemma AddedRow(rows: seq<Row>, maps: seq<Row>, t: nat)
    requires |rows| == 2 + |maps| && rows[2..] == maps && t < |maps|
    ensures rows[2 + t] == maps[t]
  {
    assert rows[2..][t] == rows[2 + t];
  }

  /** A valid page is writable, and cached write-back (4). */
  predicate WriteBack(lo: nat) { lo / 8 % 8 == 4 && (lo / 4 % 2 == 1 <==> lo / 2 % 2 == 1) }

  predicate IsWriteBack(r: Registers) { WriteBack(r.lo0) && WriteBack(r.lo1) }

  /** RAM and flash of every VM are cached, and writable wherever they are mapped at all. */
  lemma OwnRowsAreCached(vms: seq<VmConf>, outs: seq<VmOut>, i: nat, x: nat)
    requires Accepted(vms, outs) && i < |outs| && x == RowsOf(outs, i)
    ensures x in Booted(outs) && IsWriteBack(Booted(outs)[x])
    ensures x + 1 in Booted(outs) && IsWriteBack(Booted(outs)[x + 1])
  {
    assert OutAt(vms, outs, i);
    RamIsCached(outs[i].ramSize, DataAfter(outs, i), outs[i].ramBase, outs[i].tlb[0], i + 1, x);
    FlashIsCached(outs[i].flashSize, CodeAfter(outs, i), outs[i].flashBase, outs[i].tlb[1], i + 1, x + 1);
    RowStays(outs, i, 0, x);
    RowStays(outs, i, 1, x + 1);
  }

  lemma RamIsCached(size: nat, from: nat, base: nat, row: Row, guestid: nat, index: nat)
    requires Placed(size, from, RAM_VIRTUAL, base, row)
    ensures IsWriteBack(Written(EntryOf(row, guestid, index)))
  {
    var c :| Covers(PAGE_SIZES, size, c) && base == CalculateMemBase(c.page, from)
      && row == RowFor(c, size, base, RAM_VIRTUAL);
    RowIsCached(c, size, base, RAM_VIRTUAL, guestid, index);
  }

  lemma FlashIsCached(size: nat, from: nat, base: nat, row: Row, guestid: nat, index: nat)
    requires Placed(size, from, FLASH_VIRTUAL, base, row)
    ensures IsWriteBack(Written(EntryOf(row, guestid, index)))
  {
    var c :| Covers(PAGE_SIZES, size, c) && base == CalculateMemBase(c.page, from)
      && row == RowFor(c, size, base, FLASH_VIRTUAL);
    RowIsCached(c, size, base, FLASH_VIRTUAL, guestid, index);
  }

  lemma RowIsCached(c: Choice, size: nat, base: nat, va: nat, guestid: nat, index: nat)
    requires IsPage(c.page)
    ensures IsWriteBack(Written(EntryOf(RowFor(c, size, base, va), guestid, index)))
  {
    FrameIsSmall(base);
    FrameIsSmall((base + size / 2) % WORD);
    var e := EntryOf(RowFor(c, size, base, va), guestid, index);
    LoRegisterBits(e.entrylo0, e.lo0flags, e.coherency);
    LoRegisterBits(e.entrylo1, e.lo1flags, e.coherency);
  }

  // ---------------------------------------------------------------- beyond the bound

  lemma LargestCovers(c: Choice)
    requires Covers(PAGE_SIZES, 33554432, c)
    ensures c.page.value == 16777216 && c.dual
  {
    PageCases(c.page);
    assert PAGE_SIZES[6] in PAGE_SIZES;
  }

  /** The bound is needed: of two flashes of 32 MB the second starts at KSEG1, whose addresses are cut to the frames
      from 0 on, so that its second page is mapped 16 MB up in the RAM and not behind the first flash. */
  lemma FlashBeyondKseg1(vms: seq<VmConf>, outs: seq<VmOut>)
    requires Accepted(vms, outs) && |outs| == 2 && outs[0].flashSize == outs[1].flashSize == 33554432
    ensures outs[0].flashBase == 0x9E00_0000 && outs[1].flashBase == KSEG1 && !FlashesFit(outs)
    ensures |outs[1].tlb| >= 2 && outs[1].tlb[1].entrylo1 * PAGE == 0x100_0000
  {
    FlashesAreDisjoint(vms, outs);
    LargestFlashAt(FLASH_START, outs[0].flashBase, 0x9E);
    assert FlashEnd(outs, 1) == KSEG1;
    LargestFlashAt(KSEG1, outs[1].flashBase, 0xA0);
    assert OutAt(vms, outs, 1);
    WrappedFrame(33554432, CodeAfter(outs, 1), KSEG1, outs[1].tlb[1]);
  }

  lemma WrappedFrame(size: nat, code: nat, base: nat, row: Row)
    requires Placed(size, code, FLASH_VIRTUAL, base, row) && size == 33554432 && base == KSEG1
    ensures row.entrylo1 * PAGE == 0x100_0000
  {
    var c :| Covers(PAGE_SIZES, size, c) && row == RowFor(c, size, base, FLASH_VIRTUAL);
    LargestCovers(c);
    assert Frame(0xA100_0000) == 0x1000;
  }

  lemma LargestFlashAt(from: nat, base: nat, k: nat)
    requires OnFirstPage(from, base, 33554432) && 16777216 * (k - 1) < from <= 16777216 * k
    ensures base == 16777216 * k
  {
    var c :| Covers(PAGE_SIZES, 33554432, c) && c.page.value >= 1 && base % c.page.value == 0
      && from <= base < from + c.page.value;
    LargestCovers(c);
    var q := base / 16777216;
    assert base == 16777216 * q;
  }
}
