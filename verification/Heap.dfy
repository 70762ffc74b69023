/** sys/lib/malloc.c: the circular, address-ordered free list kept in the headers of the blocks. */
module Heap {
  import opened Words
  import opened FreeList

  const HEADER := 8  // sizeof(mem_header)
  const NULL := -1

  /** Units for a request of `bytes`: the payload rounded up, plus a header, in 32-bit arithmetic. */
  function Units(bytes: nat): (n: nat)
    requires bytes < WORD
    ensures 1 <= n
    ensures bytes <= (n - 1) * HEADER <==> bytes <= WORD - HEADER
  {
    (bytes + HEADER - 1) % WORD / HEADER + 1
  }

  /** The last unit of the heap HeapInit builds can reach up to seven bytes beyond the region it was given. */
  lemma HeapMayOverrun(len: nat)
    requires 1 <= len <= WORD - HEADER
    ensures len <= (Units(len) - 1) * HEADER <= len + 7
    ensures (Units(len) - 1) * HEADER == len <==> len % HEADER == 0
    ensures len % HEADER == 1 ==> (Units(len) - 1) * HEADER == len + 7
  {
    var n := len / HEADER;
    assert len == HEADER * n + len % HEADER;
    assert Units(len) - 1 == (if len % HEADER == 0 then n else n + 1);
  }

  /** A request of 2^32 - 1 bytes asks for the header alone. */
  lemma HugeRequestWraps()
    ensures Units(WORD - 1) == 1
  {
  }

  class Allocator {
    // The headers, one slot for every unit of the heap; only the slots where blocks begin matter.
    const ptr: array<int>
    const size: array<nat>
    var freep: int

    // The values HeapInit saves to rebuild the heap.
    var sfreep: int
    var sfreePtr: int
    var sfreeSize: nat

    ghost var h: State

    /** What the first HeapInit saved; no call changes it, harmful or not. */
    ghost predicate Saved()
      reads this
    {
      ptr != size as object && ptr.Length == size.Length
      && sfreep == 0 && sfreePtr == 0 && sfreeSize <= ptr.Length && 1 <= ptr.Length
    }

    /** The headers and `freep` say what `h` says. */
    ghost predicate Represents()
      reads this, ptr, size
    {
      && 1 <= h.units <= ptr.Length
      && freep == h.freep && Saved() && sfreeSize == h.units
      && Sizes(h.free, size[..h.units]) && Sizes(h.live, size[..h.units])
      && Links(h.free.Keys, ptr[..h.units])
    }

    ghost predicate Valid()
      reads this, ptr, size
    {
      Represents() && Inv(h)
    }

    /** A list whose only block has no unit: nothing can be taken and nothing is live. */
    ghost predicate NoUnits()
      reads this, ptr, size
    {
      Saved() && freep == 0 && sfreeSize == 0 && ptr[0] == 0 && size[0] == 0
    }

    /** Before HeapInit there is no list; after it the heap is valid or has no unit. */
    ghost predicate Ready()
      reads this, ptr, size
    {
      ptr != size as object && ptr.Length == size.Length && (freep != NULL ==> Valid() || NoUnits())
    }

    constructor (units: nat)
      ensures Ready() && freep == NULL && ptr.Length == units && fresh(ptr) && fresh(size)
    {
      ptr := new int[units];
      size := new nat[units];
      freep := NULL;
    }

    /** The first call builds one free block of `len` bytes rounded up to units, in 32-bit arithmetic, which leaves
        none for a length of 0 and beyond 2^32 - 8. A later call, whatever its `len` and whatever harmful calls came
        before it, rebuilds that same heap. */
    method HeapInit(len: nat)
      requires len < WORD && ptr != size as object && ptr.Length == size.Length
      requires if freep == NULL then 1 <= ptr.Length && Units(len) - 1 <= ptr.Length else Saved()
      modifies this, ptr, size
      ensures Saved() && sfreeSize == if old(freep) == NULL then Units(len) - 1 else old(sfreeSize)
      ensures if 1 <= sfreeSize then Valid() && h == Start(sfreeSize) else NoUnits()
    {
      if freep == NULL {
        var nunits := Units(len);
        size[0] := nunits - 1;
        ptr[0] := 0;
        freep, sfreep := 0, 0;
        sfreePtr, sfreeSize := ptr[0], size[0];
      } else {
        freep := sfreep;
        ptr[freep] := sfreePtr;
        size[freep] := sfreeSize;
      }
      if size[0] > 0 {
        h := Start(size[0]);
        StartIsInv(h.units);
      }
    }

    /** Takes the first fit behind `freep`, or fails when no free block is large enough. The list stays
        intact unless the request is exactly the only free block. At most one lap: no block is looked at twice. */
    method Malloc(bytes: nat) returns (p1: int, ghost looked: seq<nat>)
      requires bytes < WORD && Ready()
      modifies this, ptr, size
      ensures old(freep) == NULL ==> p1 == NULL && freep == NULL
      ensures old(NoUnits()) ==> p1 == NULL && NoUnits()
      ensures old(freep != NULL && Valid()) ==>
        && Represents()
        && Answered(old(h), Units(bytes), p1 - 1, h)
        && (p1 != NULL ==> 1 <= p1 && p1 - 1 in h.live && h.live[p1 - 1] == Units(bytes))
        && (Inv(h) <==> p1 == NULL || !TakesSoleBlock(old(h), Units(bytes)))
      ensures Distinct(looked) && (old(freep != NULL && Valid()) ==> forall x :: x in looked ==> x in old(h).free)
    {
      looked := [];
      p1 := NULL;
      if freep != NULL {
        var prevp, p;
        prevp, p, looked := Search(Units(bytes));
        if p != NULL {
          p1 := Take(prevp, p, Units(bytes));
        }
      }
    }

    /** Lines 67-83: walks the list from behind `freep`. */
    method Search(nunits: nat) returns (prevp: int, p: int, ghost looked: seq<nat>)
      requires (Valid() || NoUnits()) && 1 <= nunits
      ensures NoUnits() ==> p == NULL
      ensures Valid() && p != NULL ==> 0 <= prevp && 0 <= p && FirstFit(h, nunits, p) && IsNext(h.free.Keys, prevp, p)
      ensures Valid() ==> (p == NULL <==> forall g :: g in h.free ==> h.free[g] < nunits)
      ensures Distinct(looked) && (Valid() ==> forall x :: x in looked ==> x in h.free)
    {
      looked := [];
      prevp := freep;
      ghost var valid := Valid();
      if valid { NextOf(prevp); }
      p := ptr[prevp];
      if valid { SearchBegins(h, nunits, p); }
      while true
        invariant if valid then 0 <= prevp && 0 <= p && IsNext(h.free.Keys, prevp, p) else NoUnits() && p == 0
        invariant Distinct(looked) && (valid ==> NoneBefore(h, nunits, p) && Met(h, looked, p))
        decreases h.units - Lap(h.units, h.freep, p)
      {
        if valid { NextOf(p); }
        if size[p] >= nunits {
          return;
        }
        if p == freep {
          if valid { SearchFails(h, nunits); }
          p := NULL;
          return;
        }
        SearchMovesOn(h, nunits, looked, p, ptr[p]);
        looked := looked + [p];
        prevp, p := p, ptr[p];
      }
    }

    /** Lines 69-78: unlinks `p` behind `prevp`, or cuts its tail off. */
    method Take(prevp: nat, p: nat, nunits: nat) returns (p1: int)
      requires Valid() && 1 <= nunits && FirstFit(h, nunits, p) && IsNext(h.free.Keys, prevp, p)
      modifies this, ptr, size
      ensures Represents() && Taken(old(h), nunits, p, h) && p1 - 1 == p + old(h).free[p] - nunits
      ensures p1 - 1 in h.live && h.live[p1 - 1] == nunits
      ensures Inv(h) <==> !TakesSoleBlock(old(h), nunits)
    {
      NextOf(p);
      if size[p] == nunits {
        p1 := Unlink(prevp, p, nunits);
      } else {
        p1 := CutTail(prevp, p, nunits);
      }
    }

    method Unlink(prevp: nat, p: nat, nunits: nat) returns (p1: int)
      requires Valid() && FirstFit(h, nunits, p) && IsNext(h.free.Keys, prevp, p) && 1 <= nunits == h.free[p]
      modifies this, ptr
      ensures Represents() && Taken(old(h), nunits, p, h) && p1 - 1 == p
      ensures p1 - 1 in h.live && h.live[p1 - 1] == nunits
      ensures Inv(h) <==> !TakesSoleBlock(old(h), nunits)
    {
      ghost var ptr0 := ptr[..h.units];
      NextOf(p);
      NextOf(prevp);
      ptr[prevp] := ptr[p];
      UnlinkKeepsLinks(h.free.Keys, ptr0, prevp, p, (h.free - {p}).Keys, ptr[..h.units]);
      MoveKeepsSizes(h.free, h.live, size[..h.units], p);
      TakeWhole(h, nunits, prevp, p);
      h := State(h.units, h.free - {p}, h.live[p := nunits], prevp);
      freep := prevp;
      p1 := p + 1;
    }

    method CutTail(prevp: nat, p: nat, nunits: nat) returns (p1: int)
      requires Valid() && FirstFit(h, nunits, p) && IsNext(h.free.Keys, prevp, p) && 1 <= nunits < h.free[p]
      modifies this, size
      ensures Represents() && Taken(old(h), nunits, p, h) && p1 - 1 == p + old(h).free[p] - nunits
      ensures p1 - 1 in h.live && h.live[p1 - 1] == nunits
      ensures Inv(h) <==> !TakesSoleBlock(old(h), nunits)
    {
      ghost var was, size0: seq<nat>, t: nat := h, size[..h.units], p + h.free[p] - nunits;
      CutIsFresh(h, p, t);
      NextOf(p);
      p1 := WriteTail(p, nunits);
      freep := prevp;
      ghost var now := State(was.units, was.free[p := was.free[p] - nunits], was.live[t := nunits], prevp);
      CutBecomes(was, size0, prevp, p, nunits, size[..was.units], now);
      h := now;
    }

    /** Lines 73-75 and 78. */
    method WriteTail(p: nat, nunits: nat) returns (p1: int)
      requires p < h.units <= size.Length && 1 <= nunits < size[p] && p + size[p] - nunits < h.units
      modifies size
      ensures p1 - 1 == p + old(size[p]) - nunits
      ensures size[..h.units] == old(size[..h.units][p := size[p] - nunits][p + size[p] - nunits := nunits])
    {
      size[p] := size[p] - nunits;
      var q := p + size[p];
      size[q] := nunits;
      p1 := q + 1;
    }

    lemma NextOf(p: int)
      requires Represents() && 0 <= p && p in h.free
      ensures p < h.units && size[p] == h.free[p] && 0 <= ptr[p] && IsNext(h.free.Keys, p, ptr[p])
    {
      assert Sized(h.free, size[..h.units], p);
      assert Linked(h.free.Keys, ptr[..h.units], p);
    }

    /** Gives the block behind `p1` back. The gap is found within one lap. The list stays intact unless
        the block ends where the only free block begins. */
    method Free(p1: nat) returns (ghost looked: seq<nat>)
      requires Valid() && 1 <= p1 && p1 - 1 in h.live
      modifies this, ptr, size
      ensures Released(old(h), p1 - 1, h) && Saved() && sfreeSize == old(sfreeSize)
      ensures Valid() <==> !AbutsSoleBlock(old(h), p1 - 1)
      ensures Distinct(looked) && forall x :: x in looked ==> x in old(h).free
    {
      var p;
      p, looked := FindGap(p1 - 1);
      Insert(p, p1 - 1);
    }

    /** Lines 90-92: walks from `freep` to the gap where `bp` belongs. */
    method FindGap(bp: nat) returns (p: int, ghost looked: seq<nat>)
      requires Valid() && bp in h.live
      ensures 0 <= p && IsGap(h.free.Keys, p, bp)
      ensures Distinct(looked) && forall x :: x in looked ==> x in h.free
    {
      ghost var gap := GapExists(h.free.Keys, bp);
      p := freep;
      looked := [];
      NextOf(p);
      while !(bp > p && bp < ptr[p])
        invariant 0 <= p < h.units && 0 <= ptr[p] && IsNext(h.free.Keys, p, ptr[p])
        invariant Passed(h, gap, looked, p)
        decreases Ahead(h.units, p, gap)
      {
        WalkStops(h, looked, p, ptr[p], gap, bp);
        if p >= ptr[p] && (bp > p || bp < ptr[p]) {
          break;
        }
        NextOf(ptr[p]);
        looked := looked + [p];
        p := ptr[p];
      }
      WalkStops(h, looked, p, ptr[p], gap, bp);
    }

    /** Lines 94-108: merges `bp` with the neighbours it touches and links it behind `p`. */
    method Insert(p: nat, bp: nat)
      requires Valid() && bp in h.live && IsGap(h.free.Keys, p, bp)
      modifies this, ptr, size
      ensures Released(old(h), bp, h) && Saved() && sfreeSize == old(sfreeSize)
      ensures Valid() <==> !AbutsSoleBlock(old(h), bp)
    {
      ghost var was, ptr0, size0 := h, ptr[..h.units], size[..h.units];
      assert Sized(h.live, size0, bp);
      NextOf(p);
      NextOf(ptr[p]);
      ghost var ptr1, size1 := Merge(p, bp);
      freep := p;
      ghost var now := State(was.units, JoinBelow(AddAbove(was.free, bp, was.live[bp]), p, bp), was.live - {bp}, p);
      InsertReleases(was, ptr0, size0, p, bp, ptr1, size1, ptr[..was.units], size[..was.units], now);
      h := now;
    }

    /** The header writes; `ptr1` and `size1` are the headers half-way. */
    method Merge(p: nat, bp: nat) returns (ghost ptr1: seq<int>, ghost size1: seq<nat>)
      requires ptr != size as object && p < h.units && bp < h.units <= ptr.Length == size.Length
      requires 0 <= ptr[p] < h.units
      modifies ptr, size
      ensures |ptr1| == |size1| == h.units
      ensures ptr1 == old(ptr[..h.units][bp := if bp + size[bp] == ptr[p] then ptr[ptr[p]] else ptr[p]])
      ensures size1 == old(size[..h.units][bp := if bp + size[bp] == ptr[p] then size[bp] + size[ptr[p]] else size[bp]])
      ensures ptr[..h.units] == ptr1[p := if p + size1[p] == bp then ptr1[bp] else bp]
      ensures size[..h.units] == if p + size1[p] == bp then size1[p := size1[p] + size1[bp]] else size1
    {
      AbsorbUpper(p, bp);
      ptr1, size1 := ptr[..h.units], size[..h.units];
      LinkOrJoin(p, bp);
    }

    method AbsorbUpper(p: nat, bp: nat)
      requires ptr != size as object && p < h.units && bp < h.units <= ptr.Length == size.Length
      requires 0 <= ptr[p] < h.units
      modifies ptr, size
      ensures ptr[..h.units] == old(ptr[..h.units][bp := if bp + size[bp] == ptr[p] then ptr[ptr[p]] else ptr[p]])
      ensures size[..h.units]
        == old(size[..h.units][bp := if bp + size[bp] == ptr[p] then size[bp] + size[ptr[p]] else size[bp]])
    {
      if bp + size[bp] == ptr[p] {
        size[bp] := size[bp] + size[ptr[p]];
        ptr[bp] := ptr[ptr[p]];
      } else {
        ptr[bp] := ptr[p];
      }
    }

    method LinkOrJoin(p: nat, bp: nat)
      requires ptr != size as object && p < h.units && bp < h.units <= ptr.Length == size.Length
      modifies ptr, size
      ensures ptr[..h.units] == old(ptr[..h.units][p := if p + size[p] == bp then ptr[bp] else bp])
      ensures size[..h.units]
        == old(if p + size[p] == bp then size[..h.units][p := size[p] + size[bp]] else size[..h.units])
    {
      if p + size[p] == bp {
        size[p] := size[p] + size[bp];
        ptr[p] := ptr[bp];
      } else {
        ptr[p] := bp;
      }
    }
  }
}
