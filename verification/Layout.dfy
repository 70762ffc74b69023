/** Where the generator (platform/cfg_reader/genconf.c) puts the VMs, and the TLB entries that create_vm
    (sys/kernel/vm.c) makes of its output. PIC32MZ build. */
module Layout {
  import opened Bits
  import opened Wrappers
  import opened Words
  import opened Tlb

  const RAM_START := 0x8000_8000          // VMS_DATA_INTERMEDIATE_BASE_ADDRESS
  const FLASH_START := 0x9D00_8000        // VMS_CODE_INTERMEDIATE_BASE_ADDRESS
  const RAM_VIRTUAL := 0x8000_0000        // VMS_RAM_VIRTUAL_BASE_ADDRESS
  const FLASH_VIRTUAL := 0x9D00_0000      // VMS_CODE_VIRTUAL_BASE_ADDRESS
  const TOTAL_TLB_ENTRIES := 15

  datatype SizeDef = SizeDef(name: string, value: nat, mask: nat)

  const PAGE_SIZES: seq<SizeDef> := [
    SizeDef("PAGEMASK_4KB", 4096, 0xFFF),
    SizeDef("PAGEMASK_16KB", 16384, 0x3FFF),
    SizeDef("PAGEMASK_64KB", 65536, 0xFFFF),
    SizeDef("PAGEMASK_256KB", 262144, 0x3FFFF),
    SizeDef("PAGEMASK_1MB", 1048576, 0xFFFFF),
    SizeDef("PAGEMASK_4MB", 4194304, 0x3FFFFF),
    SizeDef("PAGEMASK_16MB", 16777216, 0xFFFFFF),
    SizeDef("PAGEMASK_256MB", 268435456, 0xFFFFFFF)]

  const MEM_SIZES: seq<SizeDef> := [
    SizeDef("MEM_SIZE_4KB", 4096, 0), SizeDef("MEM_SIZE_8KB", 8192, 0),
    SizeDef("MEM_SIZE_16KB", 16384, 0), SizeDef("MEM_SIZE_32KB", 32768, 0),
    SizeDef("MEM_SIZE_64KB", 65536, 0), SizeDef("MEM_SIZE_128KB", 131072, 0),
    SizeDef("MEM_SIZE_256KB", 262144, 0), SizeDef("MEM_SIZE_512KB", 524288, 0),
    SizeDef("MEM_SIZE_1MB", 1048576, 0), SizeDef("MEM_SIZE_2MB", 2097152, 0),
    SizeDef("MEM_SIZE_4MB", 4194304, 0), SizeDef("MEM_SIZE_8MB", 8388608, 0),
    SizeDef("MEM_SIZE_16MB", 16777216, 0), SizeDef("MEM_SIZE_32MB", 33554432, 0)]

  // ---------------------------------------------------------------- table searches

  /** The value of the first definition from `i` on with that name, or 0. */
  function ValueFrom(defs: seq<SizeDef>, name: string, i: nat): (v: nat)
    requires i <= |defs|
    ensures v == 0 || exists k :: i <= k < |defs| && defs[k].value == v && defs[k].name == name
    decreases |defs| - i, name
  {
    if i == |defs| then 0 else if defs[i].name == name then defs[i].value else ValueFrom(defs, name, i + 1)
  }

  function ValueOf(defs: seq<SizeDef>, name: string): (v: nat)
    ensures v == 0 || exists k :: 0 <= k < |defs| && defs[k].value == v && defs[k].name == name
  {
    ValueFrom(defs, name, 0)
  }

  method GetValueFromStr(defs: seq<SizeDef>, name: string) returns (v: nat)
    ensures v == ValueOf(defs, name)
  {
    var i := 0;
    while i < |defs|
      invariant i <= |defs| && ValueOf(defs, name) == ValueFrom(defs, name, i)
    {
      if defs[i].name == name { return defs[i].value; }
      i := i + 1;
    }
    return 0;
  }

  /** A page size and whether both pages of the pair are used. */
  datatype Choice = Choice(page: SizeDef, dual: bool)

  /** `c` covers `size` exactly, with two pages if that is possible. */
  ghost predicate Covers(defs: seq<SizeDef>, size: nat, c: Choice) {
    && c.page in defs
    && (if c.dual then c.page.value == size / 2
        else c.page.value == size && forall d :: d in defs ==> d.value != size / 2)
  }

  method SelectPageMask(size: nat, defs: seq<SizeDef>) returns (r: Option<Choice>)
    ensures r.Some? ==> Covers(defs, size, r.value)
    ensures r == None <==> forall d :: d in defs ==> d.value != size / 2 && d.value != size
  {
    var half := size / 2;
    var i := 0;
    while i < |defs|
      invariant i <= |defs| && forall j :: 0 <= j < i ==> defs[j].value != half
    {
      if defs[i].value == half { return Some(Choice(defs[i], true)); }
      i := i + 1;
    }
    i := 0;
    while i < |defs|
      invariant i <= |defs| && forall j :: 0 <= j < i ==> defs[j].value != size
    {
      if defs[i].value == size { return Some(Choice(defs[i], false)); }
      i := i + 1;
    }
    return None;
  }

  ghost predicate IsPage(d: SizeDef) {
    d in PAGE_SIZES
  }

  lemma PageCases(d: SizeDef)
    requires IsPage(d)
    ensures d == PAGE_SIZES[0] || d == PAGE_SIZES[1] || d == PAGE_SIZES[2] || d == PAGE_SIZES[3]
         || d == PAGE_SIZES[4] || d == PAGE_SIZES[5] || d == PAGE_SIZES[6] || d == PAGE_SIZES[7]
    ensures d.value in {4096, 16384, 65536, 262144, 1048576, 4194304, 16777216, 268435456} && d.mask == d.value - 1
  {
  }

  /** A page size divides KSEG0 and is a multiple of 4 KB. */
  lemma PageFacts(d: SizeDef)
    requires IsPage(d)
    ensures 4096 <= d.value <= 268435456 && d.mask == d.value - 1
    ensures d.value == 4096 * (d.value / 4096) && KSEG0 == d.value * (KSEG0 / d.value)
  {
    PageCases(d);
  }

  /** The choice is unique: the search is a function of the size. */
  lemma CoversIsUnique(size: nat, c: Choice, d: Choice)
    requires Covers(PAGE_SIZES, size, c) && Covers(PAGE_SIZES, size, d)
    ensures c == d
  {
    PageCases(c.page);
    PageCases(d.page);
  }

  /** Whatever covers `size` does so with pages of at most 16 MB. */
  ghost predicate SmallPages(size: nat) {
    forall c :: Covers(PAGE_SIZES, size, c) ==>
      size == (if c.dual then 2 else 1) * c.page.value && c.page.value <= 16777216
  }

  /** Every memory size of the configuration language fits a TLB entry, exactly. */
  lemma MemSizesFit(size: nat)
    requires exists i :: 0 <= i < |MEM_SIZES| && MEM_SIZES[i].value == size
    ensures exists c :: Covers(PAGE_SIZES, size, c)
    ensures SmallPages(size)
  {
    assert size in {4096, 8192, 16384, 32768, 65536, 131072, 262144, 524288,
                    1048576, 2097152, 4194304, 8388608, 16777216, 33554432};
    var i := if size <= 8192 then 0 else if size <= 32768 then 1 else if size <= 131072 then 2
      else if size <= 524288 then 3 else if size <= 2097152 then 4 else if size <= 8388608 then 5 else 6;
    assert PAGE_SIZES[i].value == size || 2 * PAGE_SIZES[i].value == size;
    assert PAGE_SIZES[i] in PAGE_SIZES;
    var c := Choice(PAGE_SIZES[i], 2 * PAGE_SIZES[i].value == size);
    forall d | d in PAGE_SIZES && !c.dual ensures d.value != size / 2 { PageCases(d); }
    assert Covers(PAGE_SIZES, size, c);
    forall d | Covers(PAGE_SIZES, size, d) ensures d == c { CoversIsUnique(size, c, d); }
  }

  /** Each name means the size it says, and no other name means any. */
  lemma SizesAreNamed(name: string)
    ensures ValueOf(MEM_SIZES, name) ==
      if name == "MEM_SIZE_4KB" then 4 * 1024
      else if name == "MEM_SIZE_8KB" then 8 * 1024
      else if name == "MEM_SIZE_16KB" then 16 * 1024
      else if name == "MEM_SIZE_32KB" then 32 * 1024
      else if name == "MEM_SIZE_64KB" then 64 * 1024
      else if name == "MEM_SIZE_128KB" then 128 * 1024
      else if name == "MEM_SIZE_256KB" then 256 * 1024
      else if name == "MEM_SIZE_512KB" then 512 * 1024
      else if name == "MEM_SIZE_1MB" then 1 * 1048576
      else if name == "MEM_SIZE_2MB" then 2 * 1048576
      else if name == "MEM_SIZE_4MB" then 4 * 1048576
      else if name == "MEM_SIZE_8MB" then 8 * 1048576
      else if name == "MEM_SIZE_16MB" then 16 * 1048576
      else if name == "MEM_SIZE_32MB" then 32 * 1048576
      else 0
  {
    KilobytesAreNamed(name);
    NamedAt(name, 3, MEM_SIZES[3]);
    NamedAt(name, 2, MEM_SIZES[2]);
    NamedAt(name, 1, MEM_SIZES[1]);
    NamedAt(name, 0, MEM_SIZES[0]);
  }

  lemma NamedAt(name: string, k: nat, d: SizeDef)
    requires k < |MEM_SIZES| && MEM_SIZES[k] == d
    ensures ValueFrom(MEM_SIZES, name, k) == if d.name == name then d.value else ValueFrom(MEM_SIZES, name, k + 1)
  {
  }

  lemma KilobytesAreNamed(name: string)
    ensures ValueFrom(MEM_SIZES, name, 4) ==
      if name == "MEM_SIZE_64KB" then 64 * 1024
      else if name == "MEM_SIZE_128KB" then 128 * 1024
      else if name == "MEM_SIZE_256KB" then 256 * 1024
      else if name == "MEM_SIZE_512KB" then 512 * 1024
      else if name == "MEM_SIZE_1MB" then 1 * 1048576
      else if name == "MEM_SIZE_2MB" then 2 * 1048576
      else if name == "MEM_SIZE_4MB" then 4 * 1048576
      else if name == "MEM_SIZE_8MB" then 8 * 1048576
      else if name == "MEM_SIZE_16MB" then 16 * 1048576
      else if name == "MEM_SIZE_32MB" then 32 * 1048576
      else 0
  {
    MegabytesAreNamed(name);
    NamedAt(name, 7, MEM_SIZES[7]);
    NamedAt(name, 6, MEM_SIZES[6]);
    NamedAt(name, 5, MEM_SIZES[5]);
    NamedAt(name, 4, MEM_SIZES[4]);
  }

  lemma MegabytesAreNamed(name: string)
    ensures ValueFrom(MEM_SIZES, name, 8) ==
      if name == "MEM_SIZE_1MB" then 1 * 1048576
      else if name == "MEM_SIZE_2MB" then 2 * 1048576
      else if name == "MEM_SIZE_4MB" then 4 * 1048576
      else if name == "MEM_SIZE_8MB" then 8 * 1048576
      else if name == "MEM_SIZE_16MB" then 16 * 1048576
      else if name == "MEM_SIZE_32MB" then 32 * 1048576
      else 0
  {
    NamedAt(name, 13, MEM_SIZES[13]);
    NamedAt(name, 12, MEM_SIZES[12]);
    NamedAt(name, 11, MEM_SIZES[11]);
    NamedAt(name, 10, MEM_SIZES[10]);
    NamedAt(name, 9, MEM_SIZES[9]);
    NamedAt(name, 8, MEM_SIZES[8]);
  }

  // ---------------------------------------------------------------- one TLB row

  /** `kseg0_addr_to_physical`. */
  function Kseg0ToPhysical(addr: nat): nat {
    And(addr, 0x1FFF_FFFF) / 4096
  }

  /** The frame of a KSEG0 address. */
  function Frame(addr: nat): nat {
    addr % 0x2000_0000 / 4096
  }

  lemma Kseg0ToPhysicalIsFrame(addr: nat)
    requires addr < WORD
    ensures Kseg0ToPhysical(addr) == Frame(addr)
  {
    PowersOfTwo();
    AndLowMask(addr, 29);
  }

  /** Rounds `base` up to the page, in 32-bit arithmetic. */
  function CalculateMemBase(page: SizeDef, base: nat): nat
    requires IsPage(page)
  {
    PageCases(page);
    if base % page.value != 0 then And((base + page.value) % WORD, WORD - 1 - page.mask) else base
  }

  lemma ClearsLowBits(a: nat, page: SizeDef)
    requires IsPage(page) && a < WORD
    ensures 1 <= page.value && page.mask < WORD && And(a, WORD - 1 - page.mask) == a - a % page.value
  {
    PageCases(page);
    PowersOfTwo();
    var k: nat := if page.value == 4096 then 12 else if page.value == 16384 then 14 else if page.value == 65536 then 16
      else if page.value == 262144 then 18 else if page.value == 1048576 then 20 else if page.value == 4194304 then 22
      else if page.value == 16777216 then 24 else 28;
    PagePowers();
    AndHighMask(a, k, 32);
  }

  lemma PagePowers()
    ensures Pow2(14) == 16384 && Pow2(16) == 65536 && Pow2(18) == 262144 && Pow2(20) == 1048576
    ensures Pow2(22) == 4194304 && Pow2(24) == 16777216 && Pow2(28) == 268435456
  {
    PowersOfTwo();
    assert Pow2(2) == 4 && Pow2(4) == 16;
    Pow2Adds(12, 2);
    Pow2Adds(12, 4);
    Pow2Adds(16, 2);
    Pow2Adds(16, 4);
    Pow2Adds(18, 4);
    Pow2Adds(12, 12);
    Pow2Adds(24, 4);
  }

  /** The least multiple of the page size that is not below `base`. */
  lemma CalculateMemBaseRoundsUp(page: SizeDef, base: nat)
    requires IsPage(page) && 1 <= page.value && base + page.value < WORD
    ensures var r := CalculateMemBase(page, base);
      r % page.value == 0 && base <= r < base + page.value
  {
    MemBaseIs(page, base, page.value);
    RoundedUp(base, page.value, CalculateMemBase(page, base));
  }

  lemma MemBaseIs(page: SizeDef, base: nat, p: nat)
    requires IsPage(page) && 1 <= page.value == p && base + p < WORD
    ensures CalculateMemBase(page, base) == if base % p != 0 then base + p - (base + p) % p else base
  {
    var a := base + p;
    assert a % WORD == a;
    ClearsLowBits(a, page);
  }

  lemma RoundedUp(a: nat, p: nat, r: nat)
    requires 1 <= p && r == if a % p != 0 then a + p - (a + p) % p else a
    ensures r % p == 0 && a <= r < a + p
  {
    PageRemainder(a, p);
  }

  lemma PageRemainder(a: nat, p: nat)
    requires 1 <= p
    ensures (a + p) % p == a % p && (a + p - a % p) % p == 0 && a % p < p
  {
    var q := a / p;
    assert a == p * q + a % p;
    assert p * (q + 1) == p * q + p;
    Divided(a + p, p, q + 1, a % p);
    Divided(a + p - a % p, p, q + 1, 0);
  }

  /** One row of a VM's `tlb` table. */
  datatype Row = Row(entrylo0: nat, entrylo1: nat, pagemask: nat, entryhi: nat, coherency: nat)

  /** The PAGEMASK constant of that name in tlb.h. */
  function PageMaskField(page: SizeDef): nat
    requires IsPage(page)
  {
    PageCases(page);
    page.value / 4096 - 1
  }

  function RowFor(c: Choice, size: nat, base: nat, va: nat): Row
    requires IsPage(c.page)
  {
    Row(Frame(base), if c.dual then Frame((base + size / 2) % WORD) else 0,
        PageMaskField(c.page), Frame(va), WRITE_BACK)
  }

  const WRITE_BACK := 4

  /** `process_tlb_entry`: rounds the running address up and writes the row, or fails on an odd size. */
  method ProcessTlbEntry(size: nat, memBase: nat, va: nat) returns (row: Option<Row>, base: nat)
    requires memBase < WORD && va < WORD
    ensures (row == None && base == memBase && forall c :: !Covers(PAGE_SIZES, size, c))
      || (row.Some? && Placed(size, memBase, va, base, row.value))
  {
    base := memBase;
    var r := SelectPageMask(size, PAGE_SIZES);
    if r == None { return None, base; }
    var c := r.value;
    base := CalculateMemBase(c.page, memBase);
    BaseIsWord(c.page, memBase);
    var written := WriteRow(c, size, base, va);
    row := Some(written);
  }

  /** Lines 406-447. */
  method WriteRow(c: Choice, size: nat, base: nat, va: nat) returns (row: Row)
    requires IsPage(c.page) && base < WORD && va < WORD
    ensures row == RowFor(c, size, base, va)
  {
    var lo0 := KsegFrame(base);
    var lo1 := 0;
    if c.dual {
      lo1 := KsegFrame((base + size / 2) % WORD);
    }
    var hi := KsegFrame(va);
    row := Row(lo0, lo1, PageMaskField(c.page), hi, WRITE_BACK);
  }

  method KsegFrame(addr: nat) returns (f: nat)
    requires addr < WORD
    ensures f == Frame(addr)
  {
    Kseg0ToPhysicalIsFrame(addr);
    f := Kseg0ToPhysical(addr);
  }

  lemma BaseIsWord(page: SizeDef, base: nat)
    requires IsPage(page) && base < WORD
    ensures CalculateMemBase(page, base) < WORD
  {
    PageFacts(page);
    if base % page.value != 0 {
      ClearsLowBits((base + page.value) % WORD, page);
      PageRemainder((base + page.value) % WORD, page.value);
    }
  }

  // ---------------------------------------------------------------- the VM list

  /** A VM's configuration; `maps` are the rows of its memory_maps, chosen by the user. */
  datatype VmConf = VmConf(ramSize: Option<string>, flashSize: Option<string>, maps: seq<Row>)

  /** What config.h says of a VM. */
  datatype VmOut = VmOut(ramBase: nat, ramSize: nat, flashBase: nat, flashSize: nat, tlb: seq<Row>)

  /** The row and the address `process_tlb_entry` makes of a size in the table. */
  ghost predicate Placed(size: nat, from: nat, va: nat, base: nat, row: Row) {
    exists c :: Covers(PAGE_SIZES, size, c) && base == CalculateMemBase(c.page, from)
      && row == RowFor(c, size, base, va)
  }

  /** One round of the loop: the VM `out` comes from `conf`, placed from the running addresses on. */
  ghost predicate Generated(conf: VmConf, data: nat, code: nat, out: VmOut) {
    && conf.ramSize.Some? && out.ramSize == ValueOf(MEM_SIZES, conf.ramSize.value) != 0
    && conf.flashSize.Some? && out.flashSize == ValueOf(MEM_SIZES, conf.flashSize.value) != 0
    && |out.tlb| == 2 + |conf.maps| && out.tlb[2..] == conf.maps
    && Placed(out.ramSize, data, RAM_VIRTUAL, out.ramBase, out.tlb[0])
    && Placed(out.flashSize, code, FLASH_VIRTUAL, out.flashBase, out.tlb[1])
  }

  /** The running addresses after the first `n` VMs. */
  function DataAfter(outs: seq<VmOut>, n: nat): nat
    requires n <= |outs|
  {
    if n == 0 then RAM_START else (outs[n - 1].ramBase + outs[n - 1].ramSize) % WORD
  }

  function CodeAfter(outs: seq<VmOut>, n: nat): nat
    requires n <= |outs|
  {
    if n == 0 then FLASH_START else (outs[n - 1].flashBase + outs[n - 1].flashSize) % WORD
  }

  function RowsOf(outs: seq<VmOut>, n: nat): nat
    requires n <= |outs|
  {
    if n == 0 then 0 else RowsOf(outs, n - 1) + |outs[n - 1].tlb|
  }

  /** The generator accepted `vms` and wrote `outs`. */
  ghost predicate Accepted(vms: seq<VmConf>, outs: seq<VmOut>) {
    |outs| == |vms| && RowsOf(outs, |outs|) <= TOTAL_TLB_ENTRIES && AcceptedTo(vms, outs, |outs|)
  }

  /** Both sizes are there and have a name from the table. */
  predicate Known(conf: VmConf) {
    && conf.ramSize.Some? && ValueOf(MEM_SIZES, conf.ramSize.value) != 0
    && conf.flashSize.Some? && ValueOf(MEM_SIZES, conf.flashSize.value) != 0
  }

  predicate KnownAt(vms: seq<VmConf>, i: nat) {
    i < |vms| && Known(vms[i])
  }

  ghost predicate AllKnown(vms: seq<VmConf>, n: nat) {
    forall i: nat {:trigger KnownAt(vms, i)} :: i < n ==> KnownAt(vms, i)
  }

  function RowCount(vms: seq<VmConf>, n: nat): nat
    requires n <= |vms|
  {
    if n == 0 then 0 else RowCount(vms, n - 1) + |vms[n - 1].maps| + 2
  }

  /** Lines 700-732: the RAM and the flash row of one VM. */
  method GenVm(conf: VmConf, data: nat, code: nat) returns (r: Option<VmOut>)
    requires data < WORD && code < WORD
    ensures r == None <==> !Known(conf)
    ensures r.Some? ==> Generated(conf, data, code, r.value)
  {
    if conf.ramSize == None { return None; }
    var ram := GetValueFromStr(MEM_SIZES, conf.ramSize.value);
    if ram == 0 { return None; }
    MemSizesFit(ram);
    var ramRow, ramBase := ProcessTlbEntry(ram, data, RAM_VIRTUAL);
    if conf.flashSize == None { return None; }
    var flash := GetValueFromStr(MEM_SIZES, conf.flashSize.value);
    if flash == 0 { return None; }
    MemSizesFit(flash);
    var flashRow, flashBase := ProcessTlbEntry(flash, code, FLASH_VIRTUAL);
    return Some(VmOut(ramBase, ram, flashBase, flash, [ramRow.value, flashRow.value] + conf.maps));
  }

  /** VM `i` came out right. */
  ghost predicate OutAt(vms: seq<VmConf>, outs: seq<VmOut>, i: nat) {
    i < |vms| && i < |outs| && Generated(vms[i], DataAfter(outs, i), CodeAfter(outs, i), outs[i])
  }

  ghost predicate AcceptedTo(vms: seq<VmConf>, outs: seq<VmOut>, n: nat) {
    forall i: nat {:trigger OutAt(vms, outs, i)} :: i < n ==> OutAt(vms, outs, i)
  }

  /** The same for the next VM of a list, with its place in the output. */
  method GenNext(vms: seq<VmConf>, ghost outs: seq<VmOut>, i: nat, data: nat, code: nat) returns (r: Option<VmOut>)
    requires |outs| == i < |vms| && AcceptedTo(vms, outs, i)
    requires data == DataAfter(outs, i) < WORD && code == CodeAfter(outs, i) < WORD
    requires AllKnown(vms, i)
    ensures r == None ==> !AllKnown(vms, |vms|)
    ensures r.Some? ==> AllKnown(vms, i + 1) && AcceptedTo(vms, outs + [r.value], i + 1)
                        && RowsOf(outs + [r.value], i + 1) == RowsOf(outs, i) + |vms[i].maps| + 2
  {
    r := GenVm(vms[i], data, code);
    assert KnownAt(vms, i) <==> r.Some?;
    if r.Some? { AppendVm(vms, outs, r.value); }
  }

  /** The loop of `gen_conf_vms`: it gives up exactly when there are too many rows or a size is missing or unknown. */
  method GenConfVms(vms: seq<VmConf>) returns (r: Option<seq<VmOut>>)
    ensures r.Some? ==> Accepted(vms, r.value)
    ensures r == None <==> RowCount(vms, |vms|) > TOTAL_TLB_ENTRIES || !AllKnown(vms, |vms|)
  {
    var data, code, total := RAM_START, FLASH_START, 0;
    var outs: seq<VmOut> := [];
    var i := 0;
    while i < |vms|
      invariant i <= |vms| && |outs| == i && total == RowsOf(outs, i) == RowCount(vms, i) <= TOTAL_TLB_ENTRIES
      invariant data == DataAfter(outs, i) < WORD && code == CodeAfter(outs, i) < WORD
      invariant AcceptedTo(vms, outs, i) && AllKnown(vms, i)
    {
      total := total + |vms[i].maps| + 2;
      if total > TOTAL_TLB_ENTRIES {
        RowCountGrows(vms, i + 1, |vms|);
        return None;
      }
      var out := GenNext(vms, outs, i, data, code);
      if out == None { return None; }
      outs := outs + [out.value];
      data := (out.value.ramBase + out.value.ramSize) % WORD;
      code := (out.value.flashBase + out.value.flashSize) % WORD;
      i := i + 1;
    }
    return Some(outs);
  }

  lemma {:induction false} RowCountGrows(vms: seq<VmConf>, m: nat, n: nat)
    requires m <= n <= |vms|
    ensures RowCount(vms, m) <= RowCount(vms, n)
  {
    if m < n { RowCountGrows(vms, m, n - 1); }
  }

  lemma AppendVm(vms: seq<VmConf>, outs: seq<VmOut>, out: VmOut)
    requires AcceptedTo(vms, outs, |outs|) && |outs| < |vms|
    requires Generated(vms[|outs|], DataAfter(outs, |outs|), CodeAfter(outs, |outs|), out)
    ensures AcceptedTo(vms, outs + [out], |outs| + 1)
    ensures RowsOf(outs + [out], |outs| + 1) == RowsOf(outs, |outs|) + |vms[|outs|].maps| + 2
  {
    var outs' := outs + [out];
    forall i: nat | i <= |outs| ensures OutAt(vms, outs', i) {
      SameBefore(outs, outs', i);
      assert i < |outs| ==> OutAt(vms, outs, i);
    }
    SameBefore(outs, outs', |outs|);
  }

  /** Appending a VM changes nothing before it. */
  lemma {:induction false} SameBefore(outs: seq<VmOut>, outs': seq<VmOut>, n: nat)
    requires n <= |outs| <= |outs'| && outs'[..|outs|] == outs
    ensures RowsOf(outs', n) == RowsOf(outs, n) && DataAfter(outs', n) == DataAfter(outs, n)
      && CodeAfter(outs', n) == CodeAfter(outs, n)
  {
    if n > 0 {
      assert outs'[n - 1] == outs'[..|outs|][n - 1];
      SameBefore(outs, outs', n - 1);
    }
  }
}
