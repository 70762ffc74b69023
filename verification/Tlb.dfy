/** TLB entries: what tlbEntryWrite puts in the registers and what the hardware makes of it,
    and the temporary entry of tlbCreateEntry (arch/mips/common/tlb.c). */
module Tlb {
  import opened Bits
  import opened Wrappers
  import opened Words

  const PAGE := 4096
  const KSEG0 := 0x8000_0000
  const KSEG1 := 0xA000_0000
  const VALID_DIRTY := 6        // ENTRYLO_V | ENTRYLO_D
  const RESERVED_INDEX := 0xf   // the entry for hypercall mappings

  /** struct tlbentry. */
  datatype Entry = Entry(
    guestid: nat, index: nat,
    entrylo0: nat, lo0flags: nat, entrylo1: nat, lo1flags: nat,
    pagemask: nat, entryhi: nat, coherency: nat)

  /** The guest ID set for the root and the registers tlb_commit writes to entry `index`. */
  datatype Registers = Registers(guestid: nat, index: nat, lo0: nat, lo1: nat, pagemask: nat, hi: nat)

  predicate Flags(f: nat) { f == 0 || f == VALID_DIRTY }

  /** The fields fit where the shifts put them. */
  ghost predicate FieldsFit(e: Entry) {
    && e.entrylo0 < 0x10_0000 && e.entrylo1 < 0x10_0000 && e.coherency < 8
    && Flags(e.lo0flags) && Flags(e.lo1flags)
    && e.pagemask <= 0xFFFF && e.entryhi < 0x10_0000
  }

  function LoRegister(frame: nat, flags: nat, coherency: nat): nat {
    Or(Or(frame * 64 % WORD, flags), coherency * 8 % WORD)
  }

  /** Lines 39-56. */
  function Written(e: Entry): Registers {
    Registers(e.guestid, e.index,
              LoRegister(e.entrylo0, e.lo0flags, e.coherency),
              LoRegister(e.entrylo1, e.lo1flags, e.coherency),
              e.pagemask * 0x2000 % WORD,
              And(e.entryhi * PAGE % WORD, 0xFFFF_E000))
  }

  // ---------------------------------------------------------------- the hardware's view

  function PageSize(r: Registers): (p: nat)
    ensures PAGE <= p
  {
    (r.pagemask / 0x2000 + 1) * PAGE
  }

  /** An address matches when it lies in the pair of pages at EntryHi; the page within the pair selects EntryLo0
      or EntryLo1; an EntryLo without its V bit translates nothing; the frame number is cut to the page size. */
  function Translate(r: Registers, va: nat): Option<nat> {
    var p := PageSize(r);
    if va / (2 * p) != r.hi / (2 * p) then None
    else
      var lo := if va / p % 2 == 0 then r.lo0 else r.lo1;
      if lo / 2 % 2 == 0 then None else Some(FrameBase(lo / 64, p) + va % p)
  }

  /** Some entry of the guest translates `va` to `pa`; entries of other guests do not count. */
  ghost predicate Finds(tlb: map<nat, Registers>, guest: nat, va: nat, pa: nat) {
    exists x :: x in tlb && tlb[x].guestid == guest && Translate(tlb[x], va) == Some(pa)
  }

  /** Where frame `f` begins in a page of size `p`. */
  function FrameBase(f: nat, p: nat): nat
    requires 1 <= p
  {
    RemainderIsSmaller(f * PAGE, p);
    f * PAGE - f * PAGE % p
  }

  lemma RemainderIsSmaller(a: nat, p: nat)
    requires 1 <= p
    ensures 0 <= a % p <= a
  {
    if a < p { Divided(a, p, 0, a); }
  }

  /** The frame, the V bit and nothing else decide a translation. */
  lemma LoRegisterFields(frame: nat, flags: nat, coherency: nat)
    requires frame < 0x10_0000 && Flags(flags) && coherency < 8
    ensures LoRegister(frame, flags, coherency) / 64 == frame
    ensures LoRegister(frame, flags, coherency) / 2 % 2 == if flags == 0 then 0 else 1
  {
    LoRegisterIsSum(frame, flags, coherency);
    SumFields(frame, flags, coherency, LoRegister(frame, flags, coherency));
  }

  lemma SumFields(frame: nat, flags: nat, coherency: nat, sum: nat)
    requires Flags(flags) && coherency < 8 && sum == frame * 64 + flags + coherency * 8
    ensures sum / 64 == frame && sum / 2 % 2 == if flags == 0 then 0 else 1
  {
    Divided(sum, 64, frame, flags + coherency * 8);
    var half := 16 * frame + 2 * coherency;
    Divided(sum, 2, 2 * half + flags / 2, 0);
    Divided(2 * half + flags / 2, 2, if flags == 0 then half else half + 1, if flags == 0 then 0 else 1);
  }

  lemma LoRegisterIsSum(frame: nat, flags: nat, coherency: nat)
    requires frame < 0x10_0000 && Flags(flags) && coherency < 8
    ensures LoRegister(frame, flags, coherency) == frame * 64 + flags + coherency * 8
  {
    InWord(frame, coherency);
    OrFlags(frame * 64, flags);
    OrCoherency(frame, flags, frame * 64 + flags, coherency * 8);
  }

  lemma InWord(frame: nat, coherency: nat)
    requires frame < 0x10_0000 && coherency < 8
    ensures frame * 64 % WORD == frame * 64 && coherency * 8 % WORD == coherency * 8
  {
  }

  lemma OrFlags(a: nat, flags: nat)
    requires a % 64 == 0 && Flags(flags)
    ensures Or(a, flags) == a + flags
  {
    LowPowers();
    OrDisjoint(a, flags, 6);
  }

  lemma OrCoherency(frame: nat, flags: nat, a: nat, b: nat)
    requires a == frame * 64 + flags && flags < 8 && b % 8 == 0 && b < 64
    ensures Or(a, b) == a + b
  {
    LowPowers();
    assert a % 64 == flags;
    AndNarrow(a, b, 6);
    AndSymmetric(flags, b);
    AndDisjoint(b, flags, 3);
    OrPlusAnd(a, b);
  }

  lemma LowPowers()
    ensures Pow2(3) == 8 && Pow2(6) == 64
  {
    assert Pow2(3) == 8;
    Pow2Adds(3, 3);
  }

  /** What a well-formed entry translates, in terms of its fields. */
  lemma WrittenTranslates(e: Entry, va: nat)
    requires FieldsFit(e)
    ensures var p := (e.pagemask + 1) * PAGE;
      PageSize(Written(e)) == p && Written(e).hi == e.entryhi / 2 * 2 * PAGE
      && Translate(Written(e), va) ==
        if va / (2 * p) != e.entryhi / 2 * 2 * PAGE / (2 * p) then None
        else if va / p % 2 == 0 then (if e.lo0flags == 0 then None else Some(FrameBase(e.entrylo0, p) + va % p))
        else if e.lo1flags == 0 then None else Some(FrameBase(e.entrylo1, p) + va % p)
  {
    LoRegisterFields(e.entrylo0, e.lo0flags, e.coherency);
    LoRegisterFields(e.entrylo1, e.lo1flags, e.coherency);
    HiRegister(e.entryhi, 0xFFFF_E000);
    MaskRegister(e.pagemask);
    LookUp(Written(e), va, (e.pagemask + 1) * PAGE, e.entryhi / 2 * 2 * PAGE, e.entrylo0, e.lo0flags, e.entrylo1,
      e.lo1flags);
  }

  lemma MaskRegister(pagemask: nat)
    requires pagemask <= 0xFFFF
    ensures pagemask * 0x2000 % WORD / 0x2000 == pagemask
  {
  }

  /** A translation in terms of what the registers hold. */
  lemma LookUp(r: Registers, va: nat, p: nat, hi: nat, f0: nat, flags0: nat, f1: nat, flags1: nat)
    requires PageSize(r) == p && r.hi == hi && r.lo0 / 64 == f0 && r.lo1 / 64 == f1
    requires r.lo0 / 2 % 2 == (if flags0 == 0 then 0 else 1) && r.lo1 / 2 % 2 == if flags1 == 0 then 0 else 1
    ensures Translate(r, va) ==
      if va / (2 * p) != hi / (2 * p) then None
      else if va / p % 2 == 0 then (if flags0 == 0 then None else Some(FrameBase(f0, p) + va % p))
      else if flags1 == 0 then None else Some(FrameBase(f1, p) + va % p)
  {
  }

  lemma HiRegister(hi: nat, mask: nat)
    requires hi < 0x10_0000 && mask == 0xFFFF_E000
    ensures And(hi * PAGE % WORD, mask) == hi / 2 * 2 * PAGE
  {
    assert hi * PAGE % WORD == hi * PAGE;
    ClearLow13(hi * PAGE, mask);
    Divided(hi * PAGE, 8192, hi / 2, hi % 2 * PAGE);
  }

  lemma ClearLow13(a: nat, mask: nat)
    requires a < WORD && mask == 0xFFFF_E000
    ensures And(a, mask) == a - a % 8192
  {
    PowersOfTwo();
    AndHighMask(a, 13, 32);
  }

  lemma PowersOfTwo()
    ensures Pow2(12) == PAGE && Pow2(13) == 8192 && Pow2(29) == 0x2000_0000 && Pow2(32) == WORD
  {
    assert Pow2(4) == 16;
    Pow2Adds(4, 4);
    Pow2Adds(8, 4);
    Pow2Adds(12, 1);
    Pow2Adds(8, 8);
    Pow2Adds(16, 13);
    Pow2Adds(16, 16);
    assert Pow2(1) == 2;
  }

  // ---------------------------------------------------------------- the temporary entry

  /** The frame of an address, in 32 bits. */
  function FrameOf(address: int): nat { address % WORD / 0x1000 }

  /** The root entry for a hypercall buffer at guest address `address`, in a VM whose RAM is at `baseaddr`. */
  function TempEntry(address: nat, baseaddr: nat, size: nat, index: nat, useCache: bool): Entry {
    var kseg := if useCache then KSEG0 else KSEG1;
    var crosses := address / 0x1000 < FrameOf(address + size);
    Entry(0, index,
          FrameOf(baseaddr - KSEG0 + (address - KSEG0)), VALID_DIRTY,
          if crosses then FrameOf(baseaddr - KSEG0 + address + size - KSEG0) else 0,
          if crosses then VALID_DIRTY else 0,
          0, FrameOf(baseaddr - kseg), if useCache then 4 else 2)
  }

  /** Where the hypervisor finds the buffer. */
  function TempAddress(address: nat, baseaddr: nat, useCache: bool): nat {
    (address % 0x1000 + baseaddr - (if useCache then KSEG0 else KSEG1)) % WORD
  }

  /** A VM's RAM window as tlbCreateEntry expects it. */
  ghost predicate RamWindow(base: nat, size: nat) {
    KSEG0 <= base < KSEG1 && base % PAGE == 0 && base + size <= KSEG1
  }

  /** Byte `k` of a buffer at `va` is found at physical `pa + k`. */
  ghost predicate Shows(e: Entry, va: nat, pa: nat, k: nat) {
    Translate(Written(e), va + k) == Some(pa + k)
  }

  ghost predicate ShowsAll(e: Entry, va: nat, pa: nat, size: nat) {
    forall k: nat :: k < size ==> Shows(e, va, pa, k)
  }

  /** Where the pair of pages of the temporary entry begins, before it is cut to a pair. */
  function TempBase(base: nat, useCache: bool): nat
    requires KSEG0 <= base < KSEG1
  {
    if useCache then base - KSEG0 else base - KSEG0 + 0xE000_0000
  }

  /** What a 4 KB entry translates. */
  lemma SmallPagesTranslate(e: Entry, va: nat)
    requires FieldsFit(e) && e.pagemask == 0
    ensures Translate(Written(e), va) ==
      if va / 8192 != e.entryhi / 2 then None
      else if va / PAGE % 2 == 0 then (if e.lo0flags == 0 then None else Some(e.entrylo0 * PAGE + va % PAGE))
      else if e.lo1flags == 0 then None else Some(e.entrylo1 * PAGE + va % PAGE)
  {
    WrittenTranslates(e, va);
    assert e.entryhi / 2 * 2 * PAGE / 8192 == e.entryhi / 2;
    WholeFrame(e.entrylo0);
    WholeFrame(e.entrylo1);
  }

  lemma WholeFrame(f: nat)
    ensures FrameBase(f, PAGE) == f * PAGE
  {
  }

  /** Address `t` past page `h`. */
  lemma PastPage(h: nat, t: nat)
    requires t < if h % 2 == 0 then 8192 else PAGE
    ensures var va := h * PAGE + t;
      va / 8192 == h / 2 && va / PAGE % 2 == (if h % 2 == 1 || PAGE <= t then 1 else 0) && va % PAGE == t % PAGE
  {
    var va := h * PAGE + t;
    Divided(va, 8192, h / 2, if h % 2 == 0 then t else PAGE + t);
    Divided(va, PAGE, h + t / PAGE, t % PAGE);
  }

  /** The translation of byte `k` in terms of the frames where the buffer begins and ends. */
  ghost predicate Looked(even: bool, b: nat, x: nat, o: nat, size: nat, k: nat, t: Option<nat>) {
    t == if even && o + k < PAGE then Some((b + x) / PAGE * PAGE + (o + k) % PAGE)
         else if o + size < PAGE then None
         else Some((b + x + size) / PAGE * PAGE + (o + k) % PAGE)
  }

  /** Entry `e` maps a buffer of `size` bytes that starts `o` bytes into its first page: the frames are those
      of guest-physical `x`, in RAM at `b`. */
  ghost predicate Maps(e: Entry, even: bool, b: nat, x: nat, o: nat, size: nat) {
    && FieldsFit(e) && e.pagemask == 0 && e.lo0flags == VALID_DIRTY && e.entrylo0 == (b + x) / PAGE
    && (e.lo1flags == VALID_DIRTY <==> PAGE <= o + size)
    && (PAGE <= o + size ==> e.entrylo1 == (b + x + size) / PAGE)
    && (e.entryhi % 2 == 0 <==> even) && b % PAGE == 0 && o == x % PAGE
  }

  lemma ByteShowsIff(e: Entry, va: nat, even: bool, b: nat, x: nat, o: nat, size: nat, k: nat)
    requires Maps(e, even, b, x, o, size) && va == e.entryhi * PAGE + o
    requires k < size && o + k < if even then 8192 else PAGE
    ensures Shows(e, va, b + x, k) <==> even && (o + k < PAGE || o + size < 8192)
  {
    var t := Translate(Written(e), va + k);
    LookedAt(e, va, even, b, x, o, size, k, t);
    LookedIff(even, b, x, o, size, k, t);
  }

  lemma LookedAt(e: Entry, va: nat, even: bool, b: nat, x: nat, o: nat, size: nat, k: nat, t: Option<nat>)
    requires Maps(e, even, b, x, o, size) && va == e.entryhi * PAGE + o && t == Translate(Written(e), va + k)
    requires k < size && o + k < if even then 8192 else PAGE
    ensures Looked(even, b, x, o, size, k, t)
  {
    PastPage(e.entryhi, o + k);
    SmallPagesTranslate(e, va + k);
  }

  lemma AllBytesShowIff(e: Entry, va: nat, pa: nat, even: bool, b: nat, x: nat, o: nat, size: nat)
    requires Maps(e, even, b, x, o, size) && va == e.entryhi * PAGE + o && 1 <= size && pa == b + x
    ensures ShowsAll(e, va, pa, size) <==> even && o + size < 8192
  {
    if even {
      forall k: nat | k < size && o + size < 8192 ensures Shows(e, va, pa, k) {
        ByteShowsIff(e, va, even, b, x, o, size, k);
      }
      if 8192 <= o + size {
        // the odd page shows the buffer's last page, which is not its second
        ByteShowsIff(e, va, even, b, x, o, size, PAGE - o);
      }
    } else {
      // the buffer's first page is looked up in the other half of the pair
      ByteShowsIff(e, va, even, b, x, o, size, 0);
    }
  }

  /** The temporary mapping agrees with the guest's own, which has guest address KSEG0 + x at RAM base + x,
      on the whole buffer exactly when the RAM starts on a pair of pages and the buffer, measured from the
      start of its first page, ends inside the second. */
  lemma TempAgreesIff(address: nat, base: nat, size: nat, index: nat, useCache: bool)
    requires KSEG0 <= address && RamWindow(base, address + size - KSEG0) && 1 <= size
    ensures var (e, va) := (TempEntry(address, base, size, index, useCache), TempAddress(address, base, useCache));
      ShowsAll(e, va, base - KSEG0 + (address - KSEG0), size) <==> base % 8192 == 0 && address % PAGE + size < 8192
  {
    TempMaps(address, base, size, index, useCache, base - KSEG0, address - KSEG0, address % PAGE,
             TempEntry(address, base, size, index, useCache), TempAddress(address, base, useCache));
    AllBytesShowIff(TempEntry(address, base, size, index, useCache), TempAddress(address, base, useCache),
                    base - KSEG0 + (address - KSEG0), base % 8192 == 0,
                    base - KSEG0, address - KSEG0, address % PAGE, size);
  }

  /** The V and D bits and the cache attribute of a register. */
  lemma LoRegisterBits(frame: nat, flags: nat, coherency: nat)
    requires frame < 0x10_0000 && Flags(flags) && coherency < 8
    ensures var lo := LoRegister(frame, flags, coherency);
      lo / 8 % 8 == coherency && (lo / 2 % 2 == 1 <==> flags != 0) && (lo / 4 % 2 == 1 <==> flags != 0)
  {
    LoRegisterIsSum(frame, flags, coherency);
    SumBits(frame, flags, coherency, LoRegister(frame, flags, coherency));
  }

  lemma SumBits(frame: nat, flags: nat, coherency: nat, sum: nat)
    requires Flags(flags) && coherency < 8 && sum == frame * 64 + flags + coherency * 8
    ensures sum / 8 % 8 == coherency && (sum / 2 % 2 == 1 <==> flags != 0) && (sum / 4 % 2 == 1 <==> flags != 0)
  {
    Divided(sum, 8, frame * 8 + coherency, flags);
    Divided(frame * 8 + coherency, 8, frame, coherency);
    var half := frame * 32 + coherency * 4 + if flags == 0 then 0 else 3;
    Divided(sum, 2, half, 0);
    Parity(half, frame * 16 + coherency * 2 + if flags == 0 then 0 else 1, flags != 0);
    var quarter := frame * 16 + coherency * 2 + if flags == 0 then 0 else 1;
    Divided(sum, 4, quarter, if flags == 0 then 0 else 2);
    Parity(quarter, frame * 8 + coherency, flags != 0);
  }

  lemma Parity(x: nat, h: nat, odd: bool)
    requires x == 2 * h + if odd then 1 else 0
    ensures x % 2 == 1 <==> odd
  {
  }

  /** The temporary entry is the root's, can be written, and is cached (write-back, 4) exactly when that was asked
      for, and uncached (2) otherwise. */
  lemma TempIsCachedIff(address: nat, base: nat, size: nat, index: nat, useCache: bool)
    ensures var r := Written(TempEntry(address, base, size, index, useCache));
      && r.guestid == 0 && r.index == index && r.lo0 / 2 % 2 == 1 && r.lo0 / 4 % 2 == 1
      && r.lo0 / 8 % 8 == (if useCache then 4 else 2) && r.lo1 / 8 % 8 == (if useCache then 4 else 2)
  {
    var e := TempEntry(address, base, size, index, useCache);
    LoRegisterBits(e.entrylo0, e.lo0flags, e.coherency);
    LoRegisterBits(e.entrylo1, e.lo1flags, e.coherency);
  }

  /** The fields of the entry without wrap-around. */
  lemma TempMaps(address: nat, base: nat, size: nat, index: nat, useCache: bool, b: nat, x: nat, o: nat, e: Entry,
                 va: nat)
    requires KSEG0 <= address && RamWindow(base, address + size - KSEG0) && 1 <= size
    requires b == base - KSEG0 && x == address - KSEG0 && o == address % PAGE
    requires e == TempEntry(address, base, size, index, useCache) && va == TempAddress(address, base, useCache)
    ensures Maps(e, base % 8192 == 0, b, x, o, size) && va == e.entryhi * PAGE + o
  {
    TempFrames(address, base, size, index, useCache, b, x, o, e);
    TempStarts(address, base, size, index, useCache);
    PageOffsets(address, base);
  }

  lemma PageOffsets(address: nat, base: nat)
    requires KSEG0 <= address && KSEG0 <= base && base % PAGE == 0
    ensures (base - KSEG0) % PAGE == 0 && (address - KSEG0) % PAGE == address % PAGE
  {
  }

  lemma TempFrames(address: nat, base: nat, size: nat, index: nat, useCache: bool, b: nat, x: nat, o: nat, e: Entry)
    requires KSEG0 <= address && KSEG0 <= base && address < WORD && b + x + size <= 0x2000_0000
    requires b == base - KSEG0 && x == address - KSEG0 && o == address % PAGE
    requires e == TempEntry(address, base, size, index, useCache)
    ensures e.entrylo0 == (b + x) / PAGE < 0x10_0000 && e.entrylo1 < 0x10_0000
    ensures e.lo1flags == if PAGE <= o + size then VALID_DIRTY else 0
    ensures PAGE <= o + size ==> e.entrylo1 == (b + x + size) / PAGE
  {
    assert base - KSEG0 + (address - KSEG0) == b + x && base - KSEG0 + address + size - KSEG0 == b + x + size;
    Crosses(address, size, o);
    InWindow(b + x);
    InWindow(b + x + size);
  }

  lemma Crosses(address: nat, size: nat, o: nat)
    requires o == address % PAGE && address + size < WORD
    ensures address / 0x1000 < FrameOf(address + size) <==> PAGE <= o + size
  {
    Divided(address + size, PAGE, address / PAGE + (o + size) / PAGE, (o + size) % PAGE);
  }

  lemma InWindow(pa: nat)
    requires pa <= 0x2000_0000
    ensures FrameOf(pa) == pa / PAGE < 0x10_0000
  {
  }

  lemma TempStarts(address: nat, base: nat, size: nat, index: nat, useCache: bool)
    requires KSEG0 <= address && RamWindow(base, 0)
    ensures var e := TempEntry(address, base, size, index, useCache);
      && e.entryhi < 0x10_0000 && (e.entryhi % 2 == 0 <==> base % 8192 == 0)
      && TempAddress(address, base, useCache) == e.entryhi * PAGE + address % PAGE
  {
    var hi := FrameOf(base - if useCache then KSEG0 else KSEG1);
    HiFrame(base, useCache);
    EvenBase(base, useCache, hi);
    StartsAt(address, base, useCache, hi);
  }

  lemma HiFrame(base: nat, useCache: bool)
    requires RamWindow(base, 0)
    ensures var hi := FrameOf(base - if useCache then KSEG0 else KSEG1);
      hi < 0x10_0000 && hi * PAGE == TempBase(base, useCache)
  {
  }

  lemma StartsAt(address: nat, base: nat, useCache: bool, hi: nat)
    requires RamWindow(base, 0) && hi * PAGE == TempBase(base, useCache) && hi < 0x10_0000
    ensures TempAddress(address, base, useCache) == hi * PAGE + address % PAGE
  {
  }

  lemma LookedIff(even: bool, b: nat, x: nat, o: nat, size: nat, k: nat, t: Option<nat>)
    requires b % PAGE == 0 && o == x % PAGE && k < size && o + k < (if even then 8192 else PAGE)
      && Looked(even, b, x, o, size, k, t)
    ensures t == Some(b + x + k) <==> even && (o + k < PAGE || o + size < 8192)
  {
    FirstFrameIs(b, x, o);
    LastFrameIs(b, x, o, size);
    if o + k < PAGE { Divided(o + k, PAGE, 0, o + k); } else { Divided(o + k, PAGE, 1, o + k - PAGE); }
  }

  lemma FirstFrameIs(b: nat, x: nat, o: nat)
    requires b % PAGE == 0 && o == x % PAGE
    ensures (b + x) / PAGE * PAGE == b + x - o
  {
    Divided(b + x, PAGE, b / PAGE + x / PAGE, o);
  }

  lemma LastFrameIs(b: nat, x: nat, o: nat, size: nat)
    requires b % PAGE == 0 && o == x % PAGE
    ensures (b + x + size) / PAGE * PAGE == b + x + size - (o + size) % PAGE
    ensures o + size < PAGE ==> (o + size) % PAGE == o + size
    ensures PAGE <= o + size < 8192 ==> (o + size) % PAGE == o + size - PAGE
    ensures 8192 <= o + size ==> (o + size) % PAGE <= o + size - 8192
  {
    Divided(b + x + size, PAGE, b / PAGE + x / PAGE + (o + size) / PAGE, (o + size) % PAGE);
  }

  lemma EvenBase(base: nat, useCache: bool, hi: nat)
    requires KSEG0 <= base < KSEG1 && base % PAGE == 0 && hi * PAGE == TempBase(base, useCache)
    ensures hi % 2 == 0 <==> base % 8192 == 0
  {
  }

  // ---------------------------------------------------------------- the code

  /** A struct tlbentry as tlbCreateEntry fills it. */
  class EntryStruct {
    var guestid: nat
    var index: nat
    var entrylo0: nat
    var lo0flags: nat
    var entrylo1: nat
    var lo1flags: nat
    var pagemask: nat
    var entryhi: nat
    var coherency: nat

    constructor () {}

    ghost function Value(): Entry
      reads this
    {
      Entry(guestid, index, entrylo0, lo0flags, entrylo1, lo1flags, pagemask, entryhi, coherency)
    }

    method Fill(address: nat, baseaddr: nat, size: nat, tlbindex: nat, useCache: bool)
      modifies this
      ensures Value() == TempEntry(address, baseaddr, size, tlbindex, useCache)
    {
      var kseg := if useCache then KSEG0 else KSEG1;
      guestid := 0;
      index := tlbindex;
      entrylo0 := FrameOf(baseaddr - KSEG0 + (address - KSEG0));
      lo0flags := VALID_DIRTY;
      if address / 0x1000 < FrameOf(address + size) {
        entrylo1 := FrameOf(baseaddr - KSEG0 + address + size - KSEG0);
        lo1flags := VALID_DIRTY;
      } else {
        entrylo1 := 0;
        lo1flags := 0;
      }
      pagemask := 0;
      entryhi := FrameOf(baseaddr - kseg);
      coherency := if useCache then 4 else 2;
    }
  }

  /** The TLB; tlb_commit overwrites the entry at the index register. */
  class Hardware {
    var entries: map<nat, Registers>

    constructor ()
      ensures entries == map[]
    {
      entries := map[];
    }

    method EntryWrite(entry: EntryStruct)
      modifies this
      ensures entries == old(entries)[entry.index := Written(entry.Value())]
    {
      WriteValue(Entry(entry.guestid, entry.index, entry.entrylo0, entry.lo0flags, entry.entrylo1, entry.lo1flags,
                       entry.pagemask, entry.entryhi, entry.coherency));
    }

    method WriteValue(entry: Entry)
      modifies this
      ensures entries == old(entries)[entry.index := Written(entry)]
    {
      var lo0 := Or(Or(entry.entrylo0 * 64 % WORD, entry.lo0flags), entry.coherency * 8 % WORD);
      var lo1 := Or(Or(entry.entrylo1 * 64 % WORD, entry.lo1flags), entry.coherency * 8 % WORD);
      var mask := entry.pagemask * 0x2000 % WORD;
      var hi := And(entry.entryhi * PAGE % WORD, 0xFFFF_E000);
      entries := entries[entry.index := Registers(entry.guestid, entry.index, lo0, lo1, mask, hi)];
    }

    /** `tlbCreateEntry`; only the entry at `tlbindex` changes. */
    method CreateEntry(address: nat, baseaddr: nat, size: nat, tlbindex: nat, useCache: bool) returns (va: nat)
      requires address < WORD && baseaddr < WORD && size < WORD
      modifies this
      ensures va == TempAddress(address, baseaddr, useCache)
      ensures entries == old(entries)[tlbindex := Written(TempEntry(address, baseaddr, size, tlbindex, useCache))]
    {
      var entry := new EntryStruct();
      entry.Fill(address, baseaddr, size, tlbindex, useCache);
      EntryWrite(entry);
      va := (address % 0x1000 + baseaddr - if useCache then KSEG0 else KSEG1) % WORD;
    }
  }
}
