/** Spatial separation: the RAM of the VMs that create_vm (sys/kernel/vm.c) maps from the generator's output. */
module Separation {
  import opened Bits
  import opened Wrappers
  import opened Words
  import opened Tlb
  import opened Layout

  const STRIDE := 0x300_0000  // the largest RAM and the largest page of padding before it
  const MAX_VMS := 7

  // ---------------------------------------------------------------- the RAM windows

  /** A RAM window of one or two pages of size `p` that starts on a page, lies inside KSEG0 and below the flash,
      and the row that maps it. */
  ghost predicate RamRow(row: Row, base: nat, size: nat, p: nat, dual: bool) {
    && size == (if dual then 2 * p else p) && 4096 <= p && base % p == 0
    && RAM_START <= base && base + size < FLASH_START
    && (base - KSEG0) % p == 0 && (base - KSEG0 + p) % p == 0
    && row.entrylo0 * PAGE == base - KSEG0
    && row.entrylo1 * PAGE == (if dual then base - KSEG0 + p else 0)
    && (row.pagemask + 1) * PAGE == p && row.pagemask <= 0xFFFF && row.entryhi == 0 && row.coherency == WRITE_BACK
  }

  ghost predicate RamFits(out: VmOut) {
    |out.tlb| >= 2 && exists p, dual :: RamRow(out.tlb[0], out.ramBase, out.ramSize, p, dual)
  }

  lemma HasTwoRows(vms: seq<VmConf>, outs: seq<VmOut>, n: nat, i: nat)
    requires AcceptedTo(vms, outs, n) && i < n
    ensures i < |outs| && 2 <= |outs[i].tlb|
  {
    assert OutAt(vms, outs, i);
  }

  lemma {:induction false} TwoRowsEach(vms: seq<VmConf>, outs: seq<VmOut>, n: nat)
    requires AcceptedTo(vms, outs, n) && n <= |outs|
    ensures 2 * n <= RowsOf(outs, n)
  {
    if n > 0 {
      TwoRowsEach(vms, outs, n - 1);
      HasTwoRows(vms, outs, n, n - 1);
    }
  }

  /** Placing one VM: its window starts at the next page boundary. */
  lemma PlacedRam(conf: VmConf, data: nat, code: nat, out: VmOut)
    requires Generated(conf, data, code, out) && RAM_START <= data <= RAM_START + (MAX_VMS - 1) * STRIDE
    ensures RamFits(out) && data <= out.ramBase && out.ramBase + out.ramSize <= data + STRIDE
  {
    MemSizesFit(out.ramSize);
    PlacedRow(out.ramSize, data, RAM_VIRTUAL, out.ramBase, out.tlb[0]);
  }

  lemma PlacedRow(size: nat, data: nat, va: nat, base: nat, row: Row)
    requires Placed(size, data, va, base, row) && va == KSEG0 && RAM_START <= data <= RAM_START + (MAX_VMS - 1) * STRIDE
    requires SmallPages(size)
    ensures data <= base && base + size <= data + STRIDE
    ensures exists p, dual :: RamRow(row, base, size, p, dual)
  {
    var c := PlacedChoice(size, data, va, base, row);
    ChosenFits(c, size, base, va, data);
    ChosenRow(c, size, base, va);
  }

  /** The pages a row was written for, and how its window is aligned. */
  lemma PlacedChoice(size: nat, data: nat, va: nat, base: nat, row: Row) returns (c: Choice)
    requires Placed(size, data, va, base, row) && KSEG0 <= data <= 0x9400_0000
    requires forall c :: Covers(PAGE_SIZES, size, c) ==> c.page.value <= 16777216
    ensures Covers(PAGE_SIZES, size, c) && IsPage(c.page) && row == RowFor(c, size, base, va)
    ensures 4096 <= c.page.value && c.page.value % 4096 == 0 && data <= base < data + c.page.value
    ensures base % c.page.value == 0 && (base - KSEG0) % 4096 == 0
    ensures (base - KSEG0) % c.page.value == 0
  {
    c :| Covers(PAGE_SIZES, size, c) && base == CalculateMemBase(c.page, data) && row == RowFor(c, size, base, va);
    PageAlignsBase(c.page, data, base);
  }

  /** A RAM and its padding fit a stride. */
  lemma ChosenFits(c: Choice, size: nat, base: nat, va: nat, data: nat)
    requires size == (if c.dual then 2 else 1) * c.page.value && c.page.value <= 16777216
    requires RAM_START <= data <= RAM_START + (MAX_VMS - 1) * STRIDE && data <= base < data + c.page.value
    ensures base + size <= data + STRIDE && base + size < FLASH_START
  {
  }


  lemma ChosenRow(c: Choice, size: nat, base: nat, va: nat)
    requires IsPage(c.page) && size == (if c.dual then 2 else 1) * c.page.value && 4096 <= c.page.value <= 16777216
    requires va == KSEG0 && RAM_START <= base && base + size < FLASH_START && base % c.page.value == 0
    requires (base - KSEG0) % c.page.value == 0
    requires (base - KSEG0) % 4096 == 0 && c.page.value % 4096 == 0
    ensures RamRow(RowFor(c, size, base, va), base, size, c.page.value, c.dual)
  {
    RowFields(c, size, base, va);
    NextMultiple(base - KSEG0, c.page.value);
  }

  lemma NextMultiple(b: nat, p: nat)
    requires 1 <= p && b % p == 0
    ensures (b + p) % p == 0
  {
    var q := b / p;
    assert b == p * q && b + p == p * (q + 1);
    Divided(b + p, p, q + 1, 0);
  }

  lemma RowFields(c: Choice, size: nat, base: nat, va: nat)
    requires IsPage(c.page) && size == (if c.dual then 2 else 1) * c.page.value && 4096 <= c.page.value <= 16777216
    requires va == KSEG0 && RAM_START <= base && base + size < FLASH_START
    requires (base - KSEG0) % 4096 == 0 && c.page.value % 4096 == 0
    ensures var row := RowFor(c, size, base, va);
      && row.entrylo0 * PAGE == base - KSEG0
      && row.entrylo1 * PAGE == (if c.dual then base - KSEG0 + c.page.value else 0)
      && (row.pagemask + 1) * PAGE == c.page.value && row.pagemask <= 0xFFFF && row.entryhi == 0
  {
    FrameOfRam(base - KSEG0, base);
    if c.dual { FrameOfRam(base - KSEG0 + c.page.value, base + size / 2); }
    SmallMask(c.page);
    assert Frame(KSEG0) == 0;
  }

  lemma SmallMask(page: SizeDef)
    requires IsPage(page) && 4096 <= page.value <= 16777216 && page.value % 4096 == 0
    ensures (PageMaskField(page) + 1) * PAGE == page.value && PageMaskField(page) <= 0xFFFF
  {
  }

  lemma PageAlignsBase(page: SizeDef, data: nat, base: nat)
    requires IsPage(page) && KSEG0 <= data <= 0x9400_0000 && page.value <= 16777216
      && base == CalculateMemBase(page, data)
    ensures 4096 <= page.value && page.value % 4096 == 0 && data <= base < data + page.value && base % page.value == 0
    ensures (base - KSEG0) % page.value == 0 && (base - KSEG0) % 4096 == 0
  {
    PageFacts(page);
    CalculateMemBaseRoundsUp(page, data);
    PageDivides(base - KSEG0, page.value);
  }

  lemma FrameOfRam(b: nat, addr: nat)
    requires b < 0x2000_0000 && b % 4096 == 0 && addr == KSEG0 + b
    ensures Frame(addr) * PAGE == b
  {
    Divided(addr, 0x2000_0000, 4, b);
  }

  lemma FitsAt(vms: seq<VmConf>, outs: seq<VmOut>, n: nat, i: nat)
    requires AcceptedTo(vms, outs, n) && i < n <= |outs| && n <= MAX_VMS
    ensures RamFits(outs[i])
  {
    RamRises(vms, outs, i);
    assert OutAt(vms, outs, i);
    PlacedRam(vms[i], DataAfter(outs, i), CodeAfter(outs, i), outs[i]);
  }

  lemma PlacedAt(vms: seq<VmConf>, outs: seq<VmOut>, n: nat, i: nat)
    requires AcceptedTo(vms, outs, n) && i < n <= |outs|
      && RAM_START <= DataAfter(outs, i) <= RAM_START + (MAX_VMS - 1) * STRIDE
    ensures DataAfter(outs, i) <= outs[i].ramBase
    ensures outs[i].ramBase + outs[i].ramSize <= DataAfter(outs, i) + STRIDE
  {
    assert OutAt(vms, outs, i);
    PlacedRam(vms[i], DataAfter(outs, i), CodeAfter(outs, i), outs[i]);
  }

  lemma {:induction false} RamRises(vms: seq<VmConf>, outs: seq<VmOut>, n: nat)
    requires AcceptedTo(vms, outs, n) && n <= |outs| && n <= MAX_VMS
    ensures RAM_START <= DataAfter(outs, n) <= RAM_START + n * STRIDE
    ensures n > 0 ==> DataAfter(outs, n - 1) <= outs[n - 1].ramBase
                      && DataAfter(outs, n) == outs[n - 1].ramBase + outs[n - 1].ramSize
  {
    if n > 0 {
      RamRises(vms, outs, n - 1);
      PlacedAt(vms, outs, n, n - 1);
    }
  }

  lemma {:induction false} LaterIsHigher(vms: seq<VmConf>, outs: seq<VmOut>, i: nat, j: nat)
    requires AcceptedTo(vms, outs, j + 1) && i < j < |outs| && j < MAX_VMS
    ensures outs[i].ramBase + outs[i].ramSize <= outs[j].ramBase
  {
    RamRises(vms, outs, j + 1);
    RamRises(vms, outs, j);
    if i < j - 1 { LaterIsHigher(vms, outs, i, j - 1); }
  }

  /** For every VM list the generator accepts: at most seven VMs, each RAM window page-aligned and below the
      flash addresses, and no two windows in touch with each other's bytes. */
  lemma WindowsAreDisjoint(vms: seq<VmConf>, outs: seq<VmOut>)
    requires Accepted(vms, outs)
    ensures |outs| <= MAX_VMS
    ensures forall i :: 0 <= i < |outs| ==> RamFits(outs[i])
    ensures forall i, j :: 0 <= i < j < |outs| ==> outs[i].ramBase + outs[i].ramSize <= outs[j].ramBase
  {
    TwoRowsEach(vms, outs, |outs|);
    forall i | 0 <= i < |outs| ensures RamFits(outs[i]) { FitsAt(vms, outs, |outs|, i); }
    forall i, j | 0 <= i < j < |outs| ensures outs[i].ramBase + outs[i].ramSize <= outs[j].ramBase {
      LaterIsHigher(vms, outs, i, j);
    }
  }

  // ---------------------------------------------------------------- the entries

  /** The entry create_vm fills from a row. */
  function EntryOf(row: Row, guestid: nat, index: nat): Entry {
    Entry(guestid, index,
          row.entrylo0, if row.entrylo0 != 0 then VALID_DIRTY else 0,
          row.entrylo1, if row.entrylo1 != 0 then VALID_DIRTY else 0,
          row.pagemask, row.entryhi, row.coherency)
  }

  /** KSEG0 is a multiple of every page size, and every page size one of 4 KB. */
  lemma PageDivides(b: nat, p: nat)
    requires 4096 <= p == 4096 * (p / 4096) && KSEG0 == p * (KSEG0 / p) && (KSEG0 + b) % p == 0
    ensures b % p == 0 && b % 4096 == 0 && p % 4096 == 0
  {
    var q, m := KSEG0 / p, p / 4096;
    var k := (KSEG0 + b) / p;
    assert KSEG0 + b == p * k;
    Multiples(b, p, q, k, m);
  }

  lemma Multiples(b: nat, p: nat, q: nat, k: nat, m: nat)
    requires 1 <= p == 4096 * m && p * q + b == p * k
    ensures b % p == 0 && b % 4096 == 0
  {
    assert b == p * (k - q);
    Divided(b, p, k - q, 0);
    assert b == 4096 * (m * (k - q));
    Divided(b, 4096, m * (k - q), 0);
  }

  /** The entry maps guest-physical k, which the guest sees at 0x80000000 + k, to ram_base + k for every byte
      of the RAM, and nothing else. */
  lemma RamEntryTranslates(row: Row, base: nat, size: nat, p: nat, dual: bool, guestid: nat, index: nat, k: nat)
    requires RamRow(row, base, size, p, dual)
    ensures Translate(Written(EntryOf(row, guestid, index)), k) == if k < size then Some(base - KSEG0 + k) else None
  {
    WrittenTranslates(EntryOf(row, guestid, index), k);
    PageOf(k, p);
  }

  /** Which page of the first pair `k` lies in. */
  lemma PageOf(k: nat, p: nat)
    requires 1 <= p
    ensures 0 / (2 * p) == 0 && (k / (2 * p) == 0 <==> k < 2 * p)
    ensures k < p ==> k / p == 0 && k % p == k
    ensures p <= k < 2 * p ==> k / p == 1 && k % p == k - p
  {
    Divided(0, 2 * p, 0, 0);
    if k < p {
      Divided(k, p, 0, k);
      Divided(k, 2 * p, 0, k);
    } else if k < 2 * p {
      Divided(k, p, 1, k - p);
      Divided(k, 2 * p, 0, k);
    } else {
      assert k == 2 * p * (k / (2 * p)) + k % (2 * p);
    }
  }

  // ---------------------------------------------------------------- create_vm

  /** The entries of the first `n` VMs; the `t`-th has index `t`. */
  function Entries(outs: seq<VmOut>, n: nat): (es: seq<Entry>)
    requires n <= |outs|
    ensures |es| == RowsOf(outs, n)
  {
    if n == 0 then []
    else Entries(outs, n - 1) + EntriesOf(outs[n - 1].tlb, n, RowsOf(outs, n - 1))
  }

  function EntriesOf(rows: seq<Row>, guestid: nat, first: nat): (es: seq<Entry>)
    ensures |es| == |rows|
  {
    seq(|rows|, t requires 0 <= t < |rows| => EntryOf(rows[t], guestid, first + t))
  }

  const ZEROED := Entry(0, 0, 0, 0, 0, 0, 0, 0, 0)

  /** `create_vm` with its two static counters. */
  class Machines {
    var vmId: nat
    var tlbIndex: nat
    const hw: Hardware

    constructor ()
      ensures vmId == 1 && tlbIndex == 0 && fresh(hw) && hw.entries == map[]
    {
      hw := new Hardware();
      vmId, tlbIndex := 1, 0;
    }

    /** Lines 88-124. */
    method CreateVm(rows: seq<Row>) returns (tlbentries: array<Entry>)
      modifies this, hw
      ensures vmId == old(vmId) + 1 && tlbIndex == old(tlbIndex) + |rows|
      ensures tlbentries[..] == EntriesOf(rows, old(vmId), old(tlbIndex))
      ensures hw.entries == WriteAll(old(hw.entries), WrittenAll(EntriesOf(rows, old(vmId), old(tlbIndex))), |rows|)
    {
      var id := vmId;
      vmId := vmId + 1;
      ghost var all := EntriesOf(rows, id, tlbIndex);
      tlbentries := new Entry[|rows|](_ => ZEROED);
      FillAll(tlbentries, rows, id, all, WrittenAll(all));
      assert tlbentries[..] == all;
    }

    /** The loop. */
    method FillAll(tlbentries: array<Entry>, rows: seq<Row>, id: nat, ghost all: seq<Entry>, ghost rs: seq<Registers>)
      requires tlbentries.Length == |rows| == |all| && rs == WrittenAll(all)
      requires forall t :: 0 <= t < |rows| ==> tlbentries[t] == ZEROED && all[t] == EntryOf(rows[t], id, tlbIndex + t)
      modifies this`tlbIndex, hw, tlbentries
      ensures tlbIndex == old(tlbIndex) + |rows|
      ensures forall t :: 0 <= t < |rows| ==> tlbentries[t] == all[t]
      ensures hw.entries == WriteAll(old(hw.entries), rs, |rows|)
    {
      var i := 0;
      while i < |rows|
        invariant i <= |rows| && tlbIndex == old(tlbIndex) + i
        invariant forall t :: 0 <= t < |rows| ==> tlbentries[t] == if t < i then all[t] else ZEROED
        invariant hw.entries == WriteAll(old(hw.entries), rs, i)
      {
        FillOne(tlbentries, i, rows[i], id);
        WrittenAt(all, i);
        i, tlbIndex := i + 1, tlbIndex + 1;
      }
    }

    /** The body of the loop. */
    method FillOne(tlbentries: array<Entry>, i: nat, row: Row, id: nat)
      requires i < tlbentries.Length && tlbentries[i] == ZEROED
      modifies hw, tlbentries
      ensures tlbentries[i] == EntryOf(row, id, tlbIndex)
      ensures forall t :: 0 <= t < tlbentries.Length && t != i ==> tlbentries[t] == old(tlbentries[t])
      ensures hw.entries == old(hw.entries)[tlbIndex := Written(EntryOf(row, id, tlbIndex))]
    {
      var e := FillEntry(tlbentries[i], row, id, tlbIndex);
      tlbentries[i] := e;
      hw.WriteValue(e);
    }

    /** A zeroed entry gets its fields, and its V and D bits where a frame is given. */
    method FillEntry(zeroed: Entry, row: Row, id: nat, index: nat) returns (e: Entry)
      requires zeroed == ZEROED
      ensures e == EntryOf(row, id, index)
    {
      e := zeroed.(guestid := id, index := index, entrylo0 := row.entrylo0);
      if e.entrylo0 != 0 { e := e.(lo0flags := VALID_DIRTY); }
      e := e.(entrylo1 := row.entrylo1);
      if e.entrylo1 != 0 { e := e.(lo1flags := VALID_DIRTY); }
      e := e.(pagemask := row.pagemask, entryhi := row.entryhi, coherency := row.coherency);
    }

    /** `initializeMachines` for the generator's output. */
    method InitializeMachines(outs: seq<VmOut>)
      requires vmId == 1 && tlbIndex == 0 && hw.entries == map[]
      modifies this, hw
      ensures tlbIndex == RowsOf(outs, |outs|)
      ensures hw.entries == WriteAll(map[], WrittenAll(Entries(outs, |outs|)), tlbIndex)
    {
      var i := 0;
      while i < |outs|
        invariant i <= |outs| && vmId == i + 1 && tlbIndex == RowsOf(outs, i)
        invariant hw.entries == WriteAll(map[], WrittenAll(Entries(outs, i)), tlbIndex)
      {
        NextMachine(outs, i);
        var tlbentries := CreateVm(outs[i].tlb);
        i := i + 1;
      }
    }
  }

  /** What is written for each of `es`. */
  function WrittenAll(es: seq<Entry>): (rs: seq<Registers>)
    ensures |rs| == |es|
  {
    seq(|es|, x requires 0 <= x < |es| => Written(es[x]))
  }

  lemma WrittenAt(es: seq<Entry>, x: nat)
    requires x < |es|
    ensures WrittenAll(es)[x] == Written(es[x]) && WrittenAll(es)[x].index == es[x].index
  {
  }

  /** The TLB after the first `n` of `rs` were written. */
  function WriteAll(tlb: map<nat, Registers>, rs: seq<Registers>, n: nat): map<nat, Registers>
    requires n <= |rs|
  {
    if n == 0 then tlb else WriteAll(tlb, rs, n - 1)[rs[n - 1].index := rs[n - 1]]
  }

  lemma {:induction false} WritePrefix(tlb: map<nat, Registers>, a: seq<Registers>, b: seq<Registers>, n: nat)
    requires n <= |a|
    ensures WriteAll(tlb, a + b, n) == WriteAll(tlb, a, n)
  {
    if n > 0 { WritePrefix(tlb, a, b, n - 1); }
  }

  lemma {:induction false} WriteBoth(tlb: map<nat, Registers>, a: seq<Registers>, m: nat, b: seq<Registers>, n: nat,
                                     both: seq<Registers>, sum: nat)
    requires n <= |b| && m == |a| && both == a + b && sum == m + n
    ensures WriteAll(tlb, both, sum) == WriteAll(WriteAll(tlb, a, m), b, n)
    decreases n
  {
    if n > 0 { WriteBoth(tlb, a, m, b, n - 1, both, sum - 1); } else { WritePrefix(tlb, a, b, m); }
  }

  /** Writing the next VM's entries behind those of the first `i`. */
  lemma NextMachine(outs: seq<VmOut>, i: nat)
    requires i < |outs|
    ensures var before := WrittenAll(Entries(outs, i));
      var added := WrittenAll(EntriesOf(outs[i].tlb, i + 1, RowsOf(outs, i)));
      WriteAll(map[], WrittenAll(Entries(outs, i + 1)), RowsOf(outs, i + 1))
        == WriteAll(WriteAll(map[], before, RowsOf(outs, i)), added, |outs[i].tlb|)
  {
    JoinWrites(map[], Entries(outs, i), RowsOf(outs, i),
               EntriesOf(outs[i].tlb, i + 1, RowsOf(outs, i)), |outs[i].tlb|,
               Entries(outs, i + 1), RowsOf(outs, i + 1));
  }

  lemma JoinWrites(tlb: map<nat, Registers>, a: seq<Entry>, m: nat, b: seq<Entry>, n: nat, both: seq<Entry>, sum: nat)
    requires both == a + b && m == |a| && n == |b| && sum == m + n
    ensures WriteAll(tlb, WrittenAll(both), sum) == WriteAll(WriteAll(tlb, WrittenAll(a), m), WrittenAll(b), n)
  {
    WrittenBoth(a, b);
    WriteBoth(tlb, WrittenAll(a), m, WrittenAll(b), n, WrittenAll(both), sum);
  }

  lemma WrittenBoth(a: seq<Entry>, b: seq<Entry>)
    ensures WrittenAll(a + b) == WrittenAll(a) + WrittenAll(b)
  {
  }

  // ---------------------------------------------------------------- the theorem

  lemma {:induction false} EntriesAt(outs: seq<VmOut>, n: nat, i: nat, t: nat)
    requires i < n <= |outs| && t < |outs[i].tlb|
    ensures RowsOf(outs, i) + t < RowsOf(outs, n)
    ensures Entries(outs, n)[RowsOf(outs, i) + t] == EntryOf(outs[i].tlb[t], i + 1, RowsOf(outs, i) + t)
  {
    if i < n - 1 { EntriesAt(outs, n - 1, i, t); }
  }

  lemma {:induction false} IndexesCount(outs: seq<VmOut>, n: nat, x: nat)
    requires n <= |outs| && x < RowsOf(outs, n)
    ensures Entries(outs, n)[x].index == x
  {
    if x < RowsOf(outs, n - 1) { IndexesCount(outs, n - 1, x); }
  }

  /** Entries with the indexes 0, 1, 2, ... all stay in the TLB. */
  lemma {:induction false} AllStay(rs: seq<Registers>, n: nat)
    requires n <= |rs| && forall x :: 0 <= x < |rs| ==> rs[x].index == x
    ensures forall x: nat :: x in WriteAll(map[], rs, n) <==> x < n
    ensures forall x :: 0 <= x < n ==> WriteAll(map[], rs, n)[x] == rs[x]
  {
    if n > 0 { AllStay(rs, n - 1); }
  }

  /** The TLB once all VMs are created. */
  function Booted(outs: seq<VmOut>): map<nat, Registers> {
    WriteAll(map[], WrittenAll(Entries(outs, |outs|)), RowsOf(outs, |outs|))
  }

  /** What the TLB holds at each index. */
  lemma BootedIs(outs: seq<VmOut>, x: nat)
    ensures x in Booted(outs) <==> x < RowsOf(outs, |outs|)
    ensures x in Booted(outs) ==> Booted(outs)[x] == Written(Entries(outs, |outs|)[x])
  {
    var es := Entries(outs, |outs|);
    forall y | 0 <= y < |es| ensures WrittenAll(es)[y].index == y {
      IndexesCount(outs, |outs|, y);
      WrittenAt(es, y);
    }
    AllStay(WrittenAll(es), |es|);
    if x < |es| { WrittenAt(es, x); }
  }

  /** Where the RAM row of VM `i` ends up. */
  function RamIndex(outs: seq<VmOut>, i: nat): nat
    requires i < |outs|
  {
    RowsOf(outs, i)
  }

  lemma RamStays(vms: seq<VmConf>, outs: seq<VmOut>, i: nat)
    requires Accepted(vms, outs) && i < |outs|
    ensures RamIndex(outs, i) in Booted(outs) && 2 <= |outs[i].tlb|
    ensures Booted(outs)[RamIndex(outs, i)] == Written(EntryOf(outs[i].tlb[0], i + 1, RamIndex(outs, i)))
    ensures forall x :: x in Booted(outs) ==> x < RESERVED_INDEX
  {
    HasTwoRows(vms, outs, |outs|, i);
    EntriesAt(outs, |outs|, i, 0);
    BootedIs(outs, RamIndex(outs, i));
    forall x | x in Booted(outs) ensures x < RESERVED_INDEX { BootedIs(outs, x); }
  }

  /** Spatial separation. For every VM list the generator accepts, once create_vm has made all VMs, the TLB maps
      each VM's RAM addresses to its own window and nothing beyond it, byte by byte; the windows of two VMs share
      no physical byte; and no VM's entry lies where hypercalls are mapped. */
  lemma SpatialSeparation(vms: seq<VmConf>, outs: seq<VmOut>, i: nat, j: nat, k: nat, l: nat)
    requires Accepted(vms, outs) && i < |outs| && j < |outs|
    ensures var tlb := Booted(outs);
      && RamIndex(outs, i) in tlb && RamIndex(outs, j) in tlb && RESERVED_INDEX !in tlb
      && Translate(tlb[RamIndex(outs, i)], k)
      == (if k < outs[i].ramSize then Some(outs[i].ramBase - KSEG0 + k) else None)
      && (i != j && k < outs[i].ramSize && l < outs[j].ramSize ==>
            Translate(tlb[RamIndex(outs, i)], k) != Translate(tlb[RamIndex(outs, j)], l))
  {
    WindowsAreDisjoint(vms, outs);
    RamTranslates(vms, outs, i, k);
    RamTranslates(vms, outs, j, l);
    RamStays(vms, outs, i);
    assert i < j ==> outs[i].ramBase + outs[i].ramSize <= outs[j].ramBase;
    assert j < i ==> outs[j].ramBase + outs[j].ramSize <= outs[i].ramBase;
  }

  lemma RamTranslates(vms: seq<VmConf>, outs: seq<VmOut>, i: nat, k: nat)
    requires Accepted(vms, outs) && i < |outs|
    ensures RamIndex(outs, i) in Booted(outs) && KSEG0 <= outs[i].ramBase
    ensures Translate(Booted(outs)[RamIndex(outs, i)], k)
         == if k < outs[i].ramSize then Some(outs[i].ramBase - KSEG0 + k) else None
  {
    TwoRowsEach(vms, outs, |outs|);
    FitsAt(vms, outs, |outs|, i);
    RamStays(vms, outs, i);
    FitTranslates(outs[i], i + 1, RamIndex(outs, i), k);
  }

  lemma FitTranslates(out: VmOut, guestid: nat, index: nat, k: nat)
    requires RamFits(out)
    ensures KSEG0 <= out.ramBase
    ensures Translate(Written(EntryOf(out.tlb[0], guestid, index)), k)
         == if k < out.ramSize then Some(out.ramBase - KSEG0 + k) else None
  {
    var p, dual :| RamRow(out.tlb[0], out.ramBase, out.ramSize, p, dual);
    RamEntryTranslates(out.tlb[0], out.ramBase, out.ramSize, p, dual, guestid, index, k);
  }

  // ---------------------------------------------------------------- what a guest's lookup finds

  /** Whose entry has index `x`. */
  lemma {:induction false} EntryOwner(outs: seq<VmOut>, n: nat, x: nat) returns (i: nat, t: nat)
    requires n <= |outs| && x < RowsOf(outs, n)
    ensures i < n && t < |outs[i].tlb| && x == RowsOf(outs, i) + t
      && Entries(outs, n)[x] == EntryOf(outs[i].tlb[t], i + 1, x)
  {
    if x < RowsOf(outs, n - 1) {
      i, t := EntryOwner(outs, n - 1, x);
    } else {
      i, t := n - 1, x - RowsOf(outs, n - 1);
    }
  }

  /** No row the user added to a VM's RAM and flash rows translates `k`. */
  ghost predicate NoMapCovers(out: VmOut, k: nat) {
    forall t :: 2 <= t < |out.tlb| ==> Translate(Written(EntryOf(out.tlb[t], 0, 0)), k) == None
  }

  /** The flash is mapped in the top quarter of the guest's addresses, above any RAM. */
  const FLASH_FLOOR := 0x1C00_0000

  /** A row that maps flash, as far as addresses below the flash are concerned. */
  ghost predicate FlashRow(row: Row) {
    exists page :: IsPage(page) && page.value <= 16777216 && row.pagemask == PageMaskField(page)
                   && row.entryhi == 0x1_D000 && row.entrylo0 < 0x10_0000 && row.entrylo1 < 0x10_0000
                   && row.coherency < 8
  }

  lemma FrameIsSmall(addr: nat)
    ensures Frame(addr) < 0x2_0000
  {
  }

  lemma HasFlashRow(vms: seq<VmConf>, outs: seq<VmOut>, i: nat)
    requires Accepted(vms, outs) && i < |outs|
    ensures |outs[i].tlb| >= 2 && FlashRow(outs[i].tlb[1])
  {
    assert OutAt(vms, outs, i);
    MemSizesFit(outs[i].flashSize);
    PlacedFlash(outs[i].flashSize, CodeAfter(outs, i), outs[i].flashBase, outs[i].tlb[1]);
  }

  lemma PlacedFlash(size: nat, code: nat, base: nat, row: Row)
    requires Placed(size, code, FLASH_VIRTUAL, base, row)
    requires forall c :: Covers(PAGE_SIZES, size, c) ==> c.page.value <= 16777216
    ensures FlashRow(row)
  {
    var c :| Covers(PAGE_SIZES, size, c) && base == CalculateMemBase(c.page, code)
      && row == RowFor(c, size, base, FLASH_VIRTUAL);
    FlashRowFor(c, size, base);
  }

  lemma FlashRowFor(c: Choice, size: nat, base: nat)
    requires IsPage(c.page) && c.page.value <= 16777216
    ensures FlashRow(RowFor(c, size, base, FLASH_VIRTUAL))
  {
    var row := RowFor(c, size, base, FLASH_VIRTUAL);
    FrameIsSmall(base);
    FrameIsSmall((base + size / 2) % WORD);
    FlashHigh();
    assert IsPage(c.page) && row.pagemask == PageMaskField(c.page);
  }

  lemma FlashHigh()
    ensures Frame(FLASH_VIRTUAL) == 0x1_D000
  {
  }

  lemma SmallPage(page: SizeDef)
    requires IsPage(page) && page.value <= 16777216
    ensures PageMaskField(page) <= 0xFFFF && (PageMaskField(page) + 1) * PAGE == page.value && 4096 <= page.value
  {
    PageFacts(page);
  }

  /** A flash entry translates no address below the flash, whatever the page size. */
  lemma FlashMissesLow(row: Row, guestid: nat, index: nat, k: nat)
    requires FlashRow(row) && k < FLASH_FLOOR
    ensures Translate(Written(EntryOf(row, guestid, index)), k) == None
  {
    var page :| IsPage(page) && page.value <= 16777216 && row.pagemask == PageMaskField(page);
    SmallPage(page);
    WrittenTranslates(EntryOf(row, guestid, index), k);
    PageCases(page);
    LowMiss(k, page.value);
  }

  lemma LowMiss(k: nat, p: nat)
    requires k < FLASH_FLOOR && p in {4096, 16384, 65536, 262144, 1048576, 4194304, 16777216}
    ensures k / (2 * p) != 0x1_D000 / 2 * 2 * PAGE / (2 * p)
  {
  }

  /** A translation does not depend on whose entry it is or where it stands. */
  lemma TranslationIsAnonymous(row: Row, guestid: nat, index: nat, k: nat)
    ensures Translate(Written(EntryOf(row, guestid, index)), k) == Translate(Written(EntryOf(row, 0, 0)), k)
  {
    SameTranslation(Written(EntryOf(row, guestid, index)), Written(EntryOf(row, 0, 0)), k);
  }

  lemma SameTranslation(r: Registers, s: Registers, k: nat)
    requires r.lo0 == s.lo0 && r.lo1 == s.lo1 && r.pagemask == s.pagemask && r.hi == s.hi
    ensures Translate(r, k) == Translate(s, k)
  {
    assert PageSize(r) == PageSize(s);
  }

  /** For a VM whose added rows leave `k` alone, a lookup over the whole TLB under the VM's guest ID finds RAM base
      plus `k` when `k` is inside the RAM, and nothing else; beyond the RAM, up to the flash, it finds nothing. */
  lemma LookupIsRam(vms: seq<VmConf>, outs: seq<VmOut>, i: nat, k: nat, pa: nat)
    requires Accepted(vms, outs) && i < |outs| && k < FLASH_FLOOR && NoMapCovers(outs[i], k)
    ensures Finds(Booted(outs), i + 1, k, pa) <==> k < outs[i].ramSize && pa == outs[i].ramBase - KSEG0 + k
  {
    RamStays(vms, outs, i);
    RamTranslates(vms, outs, i, k);
    var tlb := Booted(outs);
    assert tlb[RamIndex(outs, i)].guestid == i + 1;
    if k < outs[i].ramSize && pa == outs[i].ramBase - KSEG0 + k {
      assert Translate(tlb[RamIndex(outs, i)], k) == Some(pa);
    }
    if x :| x in tlb && tlb[x].guestid == i + 1 && Translate(tlb[x], k) == Some(pa) {
      OwnRowFound(vms, outs, i, k, x);
    }
  }

  lemma OwnRowFound(vms: seq<VmConf>, outs: seq<VmOut>, i: nat, k: nat, x: nat)
    requires Accepted(vms, outs) && i < |outs| && k < FLASH_FLOOR && NoMapCovers(outs[i], k)
    requires x in Booted(outs) && Booted(outs)[x].guestid == i + 1 && Translate(Booted(outs)[x], k) != None
    ensures x == RamIndex(outs, i)
  {
    BootedIs(outs, x);
    var j, t := EntryOwner(outs, |outs|, x);
    if t > 0 { OtherRowMisses(vms, outs, i, k, t, x); }
  }

  lemma OtherRowMisses(vms: seq<VmConf>, outs: seq<VmOut>, i: nat, k: nat, t: nat, x: nat)
    requires Accepted(vms, outs) && i < |outs| && k < FLASH_FLOOR && NoMapCovers(outs[i], k) && 1 <= t < |outs[i].tlb|
    ensures Translate(Written(EntryOf(outs[i].tlb[t], i + 1, x)), k) == None
  {
    if t == 1 {
      HasFlashRow(vms, outs, i);
      FlashMissesLow(outs[i].tlb[1], i + 1, x, k);
    } else {
      TranslationIsAnonymous(outs[i].tlb[t], i + 1, x, k);
    }
  }

  /** And still so after hypercalls, each of which leaves its temporary entry at the reserved index. */
  lemma LookupStaysRam(vms: seq<VmConf>, outs: seq<VmOut>, i: nat, k: nat, pa: nat, temp: Entry)
    requires Accepted(vms, outs) && i < |outs| && k < FLASH_FLOOR && NoMapCovers(outs[i], k) && temp.guestid == 0
    ensures Finds(Booted(outs)[RESERVED_INDEX := Written(temp)], i + 1, k, pa)
       <==> k < outs[i].ramSize && pa == outs[i].ramBase - KSEG0 + k
  {
    LookupIsRam(vms, outs, i, k, pa);
    RamStays(vms, outs, i);
    var tlb, now := Booted(outs), Booted(outs)[RESERVED_INDEX := Written(temp)];
    if x :| x in tlb && tlb[x].guestid == i + 1 && Translate(tlb[x], k) == Some(pa) {
      assert now[x] == tlb[x];
    }
    if x :| x in now && now[x].guestid == i + 1 && Translate(now[x], k) == Some(pa) {
      assert x != RESERVED_INDEX && tlb[x] == now[x];
    }
  }

  /** The entry of a hypercall is the root's. */
  lemma HypercallLeavesLookups(vms: seq<VmConf>, outs: seq<VmOut>, i: nat, k: nat, pa: nat,
                               address: nat, size: nat, useCache: bool)
    requires Accepted(vms, outs) && i < |outs| && k < FLASH_FLOOR && NoMapCovers(outs[i], k)
    ensures var temp := TempEntry(address, outs[i].ramBase, size, RESERVED_INDEX, useCache);
      Finds(Booted(outs)[RESERVED_INDEX := Written(temp)], i + 1, k, pa) <==> Finds(Booted(outs), i + 1, k, pa)
  {
    LookupStaysRam(vms, outs, i, k, pa, TempEntry(address, outs[i].ramBase, size, RESERVED_INDEX, useCache));
    LookupIsRam(vms, outs, i, k, pa);
  }

  /** So no two guests' lookups of RAM addresses ever find the same physical byte. */
  lemma GuestsAreSeparate(vms: seq<VmConf>, outs: seq<VmOut>, i: nat, j: nat, k: nat, l: nat, pa: nat)
    requires Accepted(vms, outs) && i < |outs| && j < |outs| && k < FLASH_FLOOR && l < FLASH_FLOOR
    requires NoMapCovers(outs[i], k) && NoMapCovers(outs[j], l)
    ensures Finds(Booted(outs), i + 1, k, pa) && Finds(Booted(outs), j + 1, l, pa) ==> i == j && k == l
  {
    LookupIsRam(vms, outs, i, k, pa);
    LookupIsRam(vms, outs, j, l, pa);
    WindowsAreDisjoint(vms, outs);
    assert i < j ==> outs[i].ramBase + outs[i].ramSize <= outs[j].ramBase;
    assert j < i ==> outs[j].ramBase + outs[j].ramSize <= outs[i].ramBase;
  }
}
