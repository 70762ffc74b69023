/** The abstract state of the kernel heap (sys/lib/malloc.c) and the effect of one call on it.
    Addresses and sizes are counted in header units, from the start of the heap. */
module FreeList {

  /** `free` and `live` map the first unit of a block to its size; `freep` is where searches start. */
  datatype State = State(units: nat, free: map<nat, nat>, live: map<nat, nat>, freep: nat)

  // ---------------------------------------------------------------- tiling

  ghost function Blocks(h: State): map<nat, nat> {
    h.free + h.live
  }

  /** A block is not empty and ends where another begins or at the end of the heap. */
  ghost predicate Fits(units: nat, m: map<nat, nat>, b: nat) {
    b in m ==> 1 <= m[b] && b + m[b] <= units && (b + m[b] == units || b + m[b] in m)
  }

  /** A block ends before the next one begins. */
  ghost predicate Apart(m: map<nat, nat>, a: nat, b: nat) {
    a in m && b in m && a < b ==> a + m[a] <= b
  }

  /** The blocks start at unit 0, follow one another, and none reaches into the next. */
  ghost predicate Tiled(units: nat, m: map<nat, nat>) {
    && 0 in m
    && (forall b {:trigger Fits(units, m, b)} :: Fits(units, m, b))
    && (forall a, b {:trigger Apart(m, a, b)} :: Apart(m, a, b))
  }

  /** No free block ends where another free block begins. */
  ghost predicate Detached(free: map<nat, nat>, f: nat) {
    f in free ==> f + free[f] !in free
  }

  /** As `Detached`, but the block that begins there may be `b`. */
  ghost predicate DetachedBut(free: map<nat, nat>, b: nat, f: nat) {
    f in free && f + free[f] in free ==> f + free[f] == b
  }

  ghost predicate Coalesced(free: map<nat, nat>) {
    forall f {:trigger Detached(free, f)} :: Detached(free, f)
  }

  ghost predicate Inv(h: State) {
    && (forall b :: b in h.free ==> b !in h.live)
    && Tiled(h.units, Blocks(h))
    && Coalesced(h.free)
    && h.freep in h.free
  }

  ghost predicate Covers(m: map<nat, nat>, b: nat, u: nat) {
    b in m && b <= u < b + m[b]
  }

  /** No gap and no overlap: each unit lies in exactly one block. */
  lemma EveryUnitInExactlyOneBlock(units: nat, m: map<nat, nat>, u: nat)
    requires Tiled(units, m) && u < units
    ensures exists b :: Covers(m, b, u) && forall c :: Covers(m, c, u) ==> c == b
  {
    var b := CoveringBlock(units, m, u, 0);
    forall c | Covers(m, c, u) ensures c == b {
      assert Apart(m, b, c) && Apart(m, c, b);
    }
  }

  lemma {:induction false} CoveringBlock(units: nat, m: map<nat, nat>, u: nat, from: nat) returns (b: nat)
    requires Tiled(units, m) && from in m && from <= u < units
    ensures Covers(m, b, u)
    decreases u - from
  {
    assert Fits(units, m, from);
    if u < from + m[from] {
      b := from;
    } else {
      b := CoveringBlock(units, m, u, from + m[from]);
    }
  }

  // ---------------------------------------------------------------- the circular list

  /** `q` follows `p` in the circular, address-ascending list of `free`: it is the next higher
      member, or `p` is the highest and `q` the lowest. */
  ghost predicate IsNext(free: set<nat>, p: nat, q: nat) {
    && p in free && q in free
    && if p < q then forall g :: g in free ==> g <= p || q <= g
       else forall g :: g in free ==> q <= g <= p
  }

  /** How far a walk that starts behind `from` has come when it reaches `b`; `from` itself is last. */
  function Lap(units: nat, from: nat, b: nat): int {
    if from < b then b - from else b + units - from
  }

  /** The first block after `freep`, in list order, that has `n` units. */
  ghost predicate FirstFit(h: State, n: nat, b: nat) {
    && b in h.free && n <= h.free[b]
    && forall g :: g in h.free && Lap(h.units, h.freep, g) < Lap(h.units, h.freep, b) ==> h.free[g] < n
  }

  /** The member of `free` behind which a block at `b` belongs. */
  ghost predicate IsGap(free: set<nat>, p: nat, b: nat) {
    && p in free
    && if p < b then forall g :: g in free && g < b ==> g <= p
       else forall g :: g in free ==> b < g <= p
  }

  // ---------------------------------------------------------------- steps

  /** `malloc` of `n` units took (the tail of) the free block `b`. */
  ghost predicate Taken(h: State, n: nat, b: nat, h': State) {
    && FirstFit(h, n, b)
    && h'.units == h.units
    && IsNext(h.free.Keys, h'.freep, b)
    && if h.free[b] == n
       then h'.free == h.free - {b} && h'.live == h.live[b := n]
       else h'.free == h.free[b := h.free[b] - n] && h'.live == h.live[b + h.free[b] - n := n]
  }

  /** `free` gave back the live block `b`, merging it with the free blocks it touches. */
  ghost predicate Released(h: State, b: nat, h': State)
    requires b in h.live
  {
    && h'.units == h.units
    && h'.live == h.live - {b}
    && IsGap(h.free.Keys, h'.freep, b)
    && h'.free == JoinBelow(AddAbove(h.free, b, h.live[b]), h'.freep, b)
  }

  /** Adds the block at `b`, absorbing the free block that starts where it ends. */
  function AddAbove(free: map<nat, nat>, b: nat, size: nat): map<nat, nat> {
    if b + size in free then (free - {b + size})[b := size + free[b + size]] else free[b := size]
  }

  /** Lets the block at `p` absorb the one at `b` when `b` is where it ends. */
  function JoinBelow(free: map<nat, nat>, p: nat, b: nat): map<nat, nat>
    requires b in free
  {
    if p in free && p + free[p] == b then (free - {b})[p := free[p] + free[b]] else free
  }

  /** The answer of `malloc` for `n` units: no block, and nothing changed, when none is large enough;
      otherwise the last `n` units of the first fit, at `a`. */
  ghost predicate Answered(h: State, n: nat, a: int, h': State) {
    if (forall g :: g in h.free ==> h.free[g] < n) then a < 0 && h' == h
    else exists b: nat :: Taken(h, n, b, h') && a == b + h.free[b] - n
  }

  /** No block that a search for `n` units meets before `p` fits. */
  ghost predicate NoneBefore(h: State, n: nat, p: nat) {
    forall g :: g in h.free && Lap(h.units, h.freep, g) < Lap(h.units, h.freep, p) ==> h.free[g] < n
  }

  ghost predicate Distinct(s: seq<nat>) {
    forall i, j :: 0 <= i < j < |s| ==> s[i] != s[j]
  }

  /** `looked` lists, without repetition, free blocks a search meets before `p`. */
  ghost predicate Met(h: State, looked: seq<nat>, p: nat) {
    Distinct(looked) && forall x :: x in looked ==> x in h.free && Lap(h.units, h.freep, x) < Lap(h.units, h.freep, p)
  }

  /** `looked` lists, without repetition, free blocks passed on the way to `p` and from there to `gap`. */
  ghost predicate Passed(h: State, gap: nat, looked: seq<nat>, p: nat) {
    Distinct(looked) && forall x :: x in looked ==> x in h.free && Ahead(h.units, p, gap) < Ahead(h.units, x, gap)
  }

  /** How far a walk at `p` is from reaching `gap`. */
  function Ahead(units: nat, p: nat, gap: nat): int {
    if p <= gap then gap - p else gap + units - p
  }

  /** The only free block has exactly `n` units, so handing it out leaves the list without a member. */
  ghost predicate TakesSoleBlock(h: State, n: nat) {
    h.free == map[h.freep := n]
  }

  /** The only free block starts right where `b` ends, so merging it upwards leaves `freep` inside a block. */
  ghost predicate AbutsSoleBlock(h: State, b: nat)
    requires b in h.live
  {
    h.free.Keys == {b + h.live[b]}
  }

  // ---------------------------------------------------------------- cutting and joining blocks

  /** `m'` is `m` with the block at `b` cut in two at `t`. */
  ghost predicate IsCut(m: map<nat, nat>, b: nat, t: nat, m': map<nat, nat>) {
    && b in m && b < t < b + m[b]
    && (forall x :: x in m' <==> x in m || x == t)
    && (forall x :: x in m && x != b && x != t ==> m'[x] == m[x])
    && m'[b] == t - b && m'[t] == b + m[b] - t
  }

  lemma CutTiles(units: nat, m: map<nat, nat>, b: nat, t: nat, m': map<nat, nat>)
    requires Tiled(units, m) && IsCut(m, b, t, m')
    ensures t !in m && Tiled(units, m')
  {
    assert Fits(units, m, b) && Apart(m, b, t);
    forall x ensures Fits(units, m', x) {
      assert Fits(units, m, x);
    }
    forall x, y ensures Apart(m', x, y) {
      assert Apart(m, x, y) && Apart(m, x, b) && Apart(m, b, x) && Apart(m, b, y);
    }
  }

  /** Joining is the reverse of cutting. */
  lemma JoinTiles(units: nat, m: map<nat, nat>, b: nat, t: nat, m': map<nat, nat>)
    requires Tiled(units, m) && IsCut(m', b, t, m) && t !in m'
    ensures Tiled(units, m')
  {
    assert Fits(units, m, t);
    forall x ensures Fits(units, m', x) {
      assert Fits(units, m, x) && Apart(m, x, b) && Apart(m, b, x);
    }
    forall x, y ensures Apart(m', x, y) {
      assert Apart(m, x, y) && Apart(m, t, y);
    }
  }

  // ---------------------------------------------------------------- headers

  /** The size words of the blocks in `m`. */
  ghost predicate Sizes(m: map<nat, nat>, size: seq<nat>) {
    forall b {:trigger Sized(m, size, b)} :: Sized(m, size, b)
  }

  ghost predicate Sized(m: map<nat, nat>, size: seq<nat>, b: nat) {
    b in m ==> b < |size| && size[b] == m[b]
  }

  /** The link words of the members of `free` make the circular list. */
  ghost predicate Links(free: set<nat>, ptr: seq<int>) {
    forall f {:trigger Linked(free, ptr, f)} :: Linked(free, ptr, f)
  }

  ghost predicate Linked(free: set<nat>, ptr: seq<int>, f: nat) {
    f in free ==> f < |ptr| && 0 <= ptr[f] && IsNext(free, f, ptr[f])
  }

  lemma UnlinkKeepsLinks(free: set<nat>, ptr: seq<int>, prevp: nat, p: nat, free': set<nat>, ptr': seq<int>)
    requires Links(free, ptr) && IsNext(free, prevp, p) && prevp < |ptr| && p < |ptr|
    requires free' == free - {p} && ptr' == ptr[prevp := ptr[p]]
    ensures Links(free', ptr')
  {
    assert Linked(free, ptr, p);
    forall f ensures Linked(free', ptr', f) { assert Linked(free, ptr, f); }
  }

  lemma LinkKeepsLinks(free: set<nat>, ptr: seq<int>, p: nat, b: nat, free': set<nat>, ptr': seq<int>)
    requires Links(free, ptr) && IsGap(free, p, b) && b !in free && p < |ptr| && b < |ptr|
    requires free' == free + {b} && ptr' == ptr[b := ptr[p]][p := b]
    ensures Links(free', ptr')
  {
    assert Linked(free, ptr, p);
    forall f ensures Linked(free', ptr', f) { assert Linked(free, ptr, f); }
  }

  // ---------------------------------------------------------------- the steps and the invariant

  lemma TakenKeepsInvIff(h: State, n: nat, b: nat, h': State)
    requires Inv(h) && 1 <= n && Taken(h, n, b, h')
    ensures Inv(h') <==> !TakesSoleBlock(h, n)
  {
    if h.free[b] == n {
      assert Blocks(h') == Blocks(h);
      forall f ensures Detached(h'.free, f) { assert Detached(h.free, f); }
      assert h.freep != b ==> h.freep in h'.free;
    } else {
      SplitKeepsInv(h, n, b, h');
    }
  }

  lemma TakeWhole(h: State, n: nat, prevp: nat, b: nat)
    requires Inv(h) && 1 <= n && FirstFit(h, n, b) && IsNext(h.free.Keys, prevp, b) && h.free[b] == n
    ensures var h' := State(h.units, h.free - {b}, h.live[b := n], prevp);
      Taken(h, n, b, h') && (Inv(h') <==> !TakesSoleBlock(h, n))
  {
    TakenKeepsInvIff(h, n, b, State(h.units, h.free - {b}, h.live[b := n], prevp));
  }

  lemma TakeTail(h: State, n: nat, prevp: nat, b: nat)
    requires Inv(h) && 1 <= n && FirstFit(h, n, b) && IsNext(h.free.Keys, prevp, b) && h.free[b] != n
    ensures var h' := State(h.units, h.free[b := h.free[b] - n], h.live[b + h.free[b] - n := n], prevp);
      Taken(h, n, b, h') && (Inv(h') <==> !TakesSoleBlock(h, n))
  {
    TakenKeepsInvIff(h, n, b, State(h.units, h.free[b := h.free[b] - n], h.live[b + h.free[b] - n := n], prevp));
  }

  lemma SplitKeepsInv(h: State, n: nat, b: nat, h': State)
    requires Inv(h) && 1 <= n && Taken(h, n, b, h') && h.free[b] != n
    ensures Inv(h')
  {
    var t := b + h.free[b] - n;
    SplitTiles(h.units, h.free, h.live, b, t, h'.free, h'.live);
    forall f ensures Detached(h'.free, f) { assert Detached(h.free, f); }
  }

  lemma SplitTiles(units: nat, free: map<nat, nat>, live: map<nat, nat>, b: nat, t: nat,
                   free': map<nat, nat>, live': map<nat, nat>)
    requires Tiled(units, free + live) && forall x :: x in free ==> x !in live
    requires b in free && b < t < b + free[b]
    requires free' == free[b := t - b] && live' == live[t := b + free[b] - t]
    ensures Tiled(units, free' + live') && t !in free && t !in live
  {
    assert IsCut(free + live, b, t, free' + live');
    CutTiles(units, free + live, b, t, free' + live');
  }

  lemma ReleasedKeepsInvIff(h: State, b: nat, h': State)
    requires Inv(h) && b in h.live && Released(h, b, h')
    ensures Inv(h') <==> !AbutsSoleBlock(h, b)
  {
    var p, u := h'.freep, b + h.live[b];
    GapFacts(h, b, p);
    if p == u {
      assert forall g :: g in h.free <==> g == u;
      assert p !in h'.free;
    } else {
      ReleaseKeepsInv(h, b, h');
    }
  }

  /** Free blocks around a live block `b` with gap `p`: what lies below `b` ends at or before `p` ends,
      what lies above begins at or after the end of `b`. */
  lemma GapFacts(h: State, b: nat, p: nat)
    requires Inv(h) && b in h.live && IsGap(h.free.Keys, p, b)
    ensures p != b && (p < b ==> p + h.free[p] <= b)
    ensures forall g :: g in h.free && b < g ==> b + h.live[b] <= g
    ensures forall g :: g in h.free && g < b ==> g <= p < b && (g < p ==> g + h.free[g] <= p)
    ensures p == b + h.live[b] ==> forall g :: g in h.free ==> g == p
  {
    var m := Blocks(h);
    assert Fits(h.units, m, b) && Apart(m, p, b);
    forall g | g in h.free ensures b < g ==> b + h.live[b] <= g { assert Apart(m, b, g); }
    forall g | g in h.free && g < b ensures g < p ==> g + h.free[g] <= p { assert Apart(m, g, p); }
  }

  lemma AddAboveTiles(units: nat, free: map<nat, nat>, live: map<nat, nat>, b: nat)
    requires Tiled(units, free + live) && b in live && (forall x :: x in free ==> x !in live)
    requires Coalesced(free)
    ensures var free1 := AddAbove(free, b, live[b]);
      && Tiled(units, free1 + (live - {b}))
      && (forall x :: x in free1 ==> x !in live - {b})
      && (forall f {:trigger DetachedBut(free1, b, f)} :: DetachedBut(free1, b, f))
  {
    var free1, u := AddAbove(free, b, live[b]), b + live[b];
    var m, m1 := free + live, free1 + (live - {b});
    assert Fits(units, m, b);
    if u in free {
      assert Fits(units, m, u);
      assert IsCut(m1, b, u, m);
      JoinTiles(units, m, b, u, m1);
    } else {
      assert m1 == m;
    }
    forall f ensures DetachedBut(free1, b, f) {
      assert Detached(free, f) && Detached(free, u);
    }
  }

  lemma JoinBelowTiles(units: nat, free: map<nat, nat>, live: map<nat, nat>, p: nat, b: nat)
    requires Tiled(units, free + live) && (forall x :: x in free ==> x !in live)
    requires b in free && forall f {:trigger DetachedBut(free, b, f)} :: DetachedBut(free, b, f)
    requires p in free && p != b && forall g :: g in free && g < b ==> g <= p < b
    ensures var free1 := JoinBelow(free, p, b);
      && Tiled(units, free1 + live) && Coalesced(free1) && (forall x :: x in free1 ==> x !in live)
  {
    var free1 := JoinBelow(free, p, b);
    var m, m1 := free + live, free1 + live;
    assert Fits(units, m, p) && Fits(units, m, b);
    if p + free[p] == b {
      assert IsCut(m1, p, b, m);
      JoinTiles(units, m, p, b, m1);
    }
    forall f ensures Detached(free1, f) {
      assert DetachedBut(free, b, f) && DetachedBut(free, b, b) && Apart(m, f, p);
    }
  }

  lemma ReleaseKeepsInv(h: State, b: nat, h': State)
    requires Inv(h) && b in h.live && Released(h, b, h')
    requires h'.freep != b + h.live[b]
    ensures Inv(h')
  {
    GapFacts(h, b, h'.freep);
    AddAboveTiles(h.units, h.free, h.live, b);
    JoinBelowTiles(h.units, AddAbove(h.free, b, h.live[b]), h'.live, h'.freep, b);
  }

  // ---------------------------------------------------------------- histories

  datatype Event = Malloc(n: nat) | Free(b: nat)

  /** The heap HeapInit builds: one free block. */
  function Start(units: nat): State {
    State(units, map[0 := units], map[], 0)
  }

  ghost predicate Step(h: State, e: Event, h': State) {
    match e
    case Malloc(n) =>
      1 <= n && ((exists b :: Taken(h, n, b, h')) || (h' == h && forall g :: g in h.free ==> h.free[g] < n))
    case Free(b) => b in h.live && Released(h, b, h')
  }

  /** The two calls after which the list no longer describes the heap. */
  ghost predicate Harmful(h: State, e: Event) {
    match e
    case Malloc(n) => TakesSoleBlock(h, n)
    case Free(b) => b in h.live && AbutsSoleBlock(h, b)
  }

  /** A call that hands out the whole block at the start of the heap. */
  ghost predicate TakesStart(h: State, e: Event) {
    e.Malloc? && FirstFit(h, e.n, 0) && h.free[0] == e.n
  }

  ghost predicate Run(hs: seq<State>, es: seq<Event>) {
    && |hs| == |es| + 1
    && forall i :: 0 <= i < |es| ==> Step(hs[i], es[i], hs[i + 1])
  }

  /** What `malloc` answers is a step of a history. */
  lemma AnsweredIsStep(h: State, n: nat, a: int, h': State)
    requires 1 <= n && Answered(h, n, a, h')
    ensures Step(h, Malloc(n), h')
  {
  }

  /** Every live block can be freed, and in one way only. */
  lemma ReleaseIsDetermined(h: State, b: nat)
    requires Inv(h) && b in h.live
    ensures exists h' :: Released(h, b, h')
    ensures forall h1, h2 :: Released(h, b, h1) && Released(h, b, h2) ==> h1 == h2
  {
    assert Fits(h.units, Blocks(h), b);
    var p := GapExists(h.free.Keys, b);
    assert Released(h, b, State(h.units, JoinBelow(AddAbove(h.free, b, h.live[b]), p, b), h.live - {b}, p));
  }

  /** One call keeps the invariant exactly when it is not harmful. */
  lemma StepKeepsInvIff(h: State, e: Event, h': State)
    requires Inv(h) && Step(h, e, h')
    ensures Inv(h') <==> !Harmful(h, e)
  {
    match e
    case Malloc(n) =>
      if b :| Taken(h, n, b, h') {
        TakenKeepsInvIff(h, n, b, h');
      }
    case Free(b) => ReleasedKeepsInvIff(h, b, h');
  }

  /** While the block at the start of the heap is free, only taking it whole can be harmful,
      and nothing else stops it from being free. */
  lemma StepKeepsStartFree(h: State, e: Event, h': State)
    requires Inv(h) && 0 in h.free && Step(h, e, h') && !TakesStart(h, e)
    ensures !Harmful(h, e) && 0 in h'.free
  {
    match e
    case Malloc(n) =>
      assert TakesSoleBlock(h, n) ==> h.freep == 0;
    case Free(b) =>
      assert Fits(h.units, Blocks(h), b);
      assert b != 0;
      assert b + h.live[b] != 0;
      GapFacts(h, b, h'.freep);
  }

  lemma {:induction false} RunKeepsStartFree(hs: seq<State>, es: seq<Event>, units: nat, i: nat)
    requires 1 <= units && Run(hs, es) && hs[0] == Start(units) && i < |hs|
    requires forall k :: 0 <= k < |es| ==> !TakesStart(hs[k], es[k])
    ensures Inv(hs[i]) && 0 in hs[i].free && hs[i].units == units
    ensures Total(hs[i].free) + Total(hs[i].live) == units
  {
    if i == 0 {
      StartIsInv(units);
    } else {
      RunKeepsStartFree(hs, es, units, i - 1);
      assert Step(hs[i - 1], es[i - 1], hs[i - 1 + 1]);
      StepKeepsStartFree(hs[i - 1], es[i - 1], hs[i]);
      StepKeepsInvIff(hs[i - 1], es[i - 1], hs[i]);
      StepConserves(hs[i - 1], es[i - 1], hs[i]);
    }
  }

  /** A history keeps the invariant throughout exactly when none of its calls is harmful. */
  lemma {:induction false} RunKeepsInvIff(hs: seq<State>, es: seq<Event>, units: nat)
    requires 1 <= units && Run(hs, es) && hs[0] == Start(units)
    ensures (forall i :: 0 <= i < |hs| ==> Inv(hs[i])) <==> (forall i :: 0 <= i < |es| ==> !Harmful(hs[i], es[i]))
  {
    if forall i :: 0 <= i < |hs| ==> Inv(hs[i]) {
      forall i | 0 <= i < |es| ensures !Harmful(hs[i], es[i]) {
        assert Inv(hs[i + 1]);
        StepKeepsInvIff(hs[i], es[i], hs[i + 1]);
      }
    }
    if forall i :: 0 <= i < |es| ==> !Harmful(hs[i], es[i]) {
      HarmlessPrefix(hs, es, units, |es|);
    }
  }

  lemma {:induction false} HarmlessPrefix(hs: seq<State>, es: seq<Event>, units: nat, n: nat)
    requires 1 <= units && Run(hs, es) && hs[0] == Start(units) && n <= |es|
    requires forall i :: 0 <= i < |es| ==> !Harmful(hs[i], es[i])
    ensures forall i :: 0 <= i <= n ==> Inv(hs[i])
  {
    if n == 0 {
      StartIsInv(units);
    } else {
      HarmlessPrefix(hs, es, units, n - 1);
      assert Step(hs[n - 1], es[n - 1], hs[n - 1 + 1]);
      StepKeepsInvIff(hs[n - 1], es[n - 1], hs[n]);
    }
  }

  lemma StartIsInv(units: nat)
    requires 1 <= units
    ensures Inv(Start(units)) && Total(Start(units).free) + Total(Start(units).live) == units
  {
    TotalSplit(map[0 := units], 0);
    assert map[0 := units] - {0} == map[];
  }

  /** The first malloc of a whole fresh heap is harmful: the list keeps a block that is in use. */
  lemma WholeHeapIsHarmful(units: nat)
    requires 1 <= units
    ensures exists h' :: Step(Start(units), Malloc(units), h') && !Inv(h')
  {
    var h := Start(units);
    var h' := State(units, map[], map[0 := units], 0);
    assert h.free - {0} == h'.free;
    assert Taken(h, units, 0, h');
    assert Step(h, Malloc(units), h');
  }

  /** Six units: two blocks of one unit taken from the end, the last given back, the first four units taken. */
  function Trap(k: nat): State {
    if k == 0 then Start(6)
    else if k == 1 then State(6, map[0 := 5], map[5 := 1], 0)
    else if k == 2 then State(6, map[0 := 4], map[5 := 1, 4 := 1], 0)
    else if k == 3 then State(6, map[0 := 4, 5 := 1], map[4 := 1], 0)
    else if k == 4 then State(6, map[5 := 1], map[4 := 1, 0 := 4], 5)
    else State(6, map[4 := 2], map[0 := 4], 5)
  }

  lemma TrapTakes()
    ensures Taken(Trap(0), 1, 0, Trap(1)) && Taken(Trap(1), 1, 0, Trap(2))
    ensures !TakesSoleBlock(Trap(0), 1) && !TakesSoleBlock(Trap(1), 1)
  {
    assert Trap(0).free[0] == 6 && Trap(1).free[0] == 5;
    assert Trap(0).free[0 := 5] == Trap(1).free && Trap(0).live[5 := 1] == Trap(1).live;
    assert Trap(1).free[0 := 4] == Trap(2).free && Trap(1).live[4 := 1] == Trap(2).live;
  }

  lemma TrapReleases()
    ensures Released(Trap(2), 5, Trap(3)) && !AbutsSoleBlock(Trap(2), 5)
  {
    assert Trap(2).live - {5} == Trap(3).live;
    assert AddAbove(Trap(2).free, 5, 1) == Trap(3).free;
    assert 0 in Trap(2).free;
  }

  lemma TrapTakesStart()
    ensures Taken(Trap(3), 4, 0, Trap(4)) && !TakesSoleBlock(Trap(3), 4)
  {
    assert Trap(3).free - {0} == Trap(4).free && Trap(3).live[0 := 4] == Trap(4).live;
    assert 5 in Trap(3).free;
  }

  lemma TrapSprings()
    ensures Released(Trap(4), 4, Trap(5)) && AbutsSoleBlock(Trap(4), 4) && !Inv(Trap(5))
  {
    assert Trap(4).live - {4} == Trap(5).live;
    assert Trap(4).free.Keys == {5};
    assert AddAbove(Trap(4).free, 4, 1) == Trap(5).free;
    assert Trap(5).freep !in Trap(5).free;
  }

  function TrapCall(k: nat): Event {
    if k <= 1 then Malloc(1) else if k == 2 then Free(5) else if k == 3 then Malloc(4) else Free(4)
  }

  lemma TrapStep(k: nat)
    requires k <= 4
    ensures Step(Trap(k), TrapCall(k), Trap(k + 1)) && (Harmful(Trap(k), TrapCall(k)) <==> k == 4)
  {
    if k <= 1 {
      TrapTakes();
    } else if k == 2 {
      TrapReleases();
    } else if k == 3 {
      TrapTakesStart();
    } else {
      TrapSprings();
    }
  }

  /** Four harmless calls lead to a block in use right below the only free one; freeing it is harmful. */
  lemma FreeBelowSoleBlockIsHarmful() returns (hs: seq<State>, es: seq<Event>)
    ensures Run(hs, es) && hs[0] == Start(6) && es == [Malloc(1), Malloc(1), Free(5), Malloc(4), Free(4)]
    ensures (forall k :: 0 <= k < 4 ==> !Harmful(hs[k], es[k])) && Harmful(hs[4], es[4]) && !Inv(hs[5])
  {
    es := [Malloc(1), Malloc(1), Free(5), Malloc(4), Free(4)];
    hs := seq(6, k requires 0 <= k < 6 => Trap(k));
    forall k | 0 <= k < 5 ensures Step(hs[k], es[k], hs[k + 1]) && (Harmful(hs[k], es[k]) <==> k == 4) {
      TrapStep(k);
      assert es[k] == TrapCall(k);
    }
    TrapSprings();
  }

  // ---------------------------------------------------------------- giving everything back

  /** When nothing is in use the heap is the one HeapInit built. */
  lemma NothingLiveIsStart(h: State)
    requires Inv(h) && h.live == map[]
    ensures h == Start(h.units)
  {
    var m := Blocks(h);
    assert m == h.free;
    assert Fits(h.units, m, 0) && Detached(h.free, 0);
    forall b | b in h.free ensures b == 0 {
      assert Apart(m, 0, b) && Fits(h.units, m, b);
    }
    assert h.free.Keys == {0};
  }

  /** Freeing the blocks of `order` one after the other. */
  ghost predicate FreesAll(hs: seq<State>, order: seq<nat>) {
    Run(hs, seq(|order|, i requires 0 <= i < |order| => Free(order[i])))
  }

  /** After any history that leaves the block at the start of the heap, freeing every live block
      in whatever order rebuilds the heap HeapInit built. */
  lemma {:induction false} AnyOrderRestoresStart(hs: seq<State>, order: seq<nat>)
    requires FreesAll(hs, order) && Inv(hs[0]) && 0 in hs[0].free
    requires (forall i, j :: 0 <= i < j < |order| ==> order[i] != order[j])
    requires forall b :: b in hs[0].live <==> b in order
    ensures hs[|order|] == Start(hs[0].units)
  {
    FreesKeep(hs, order, |order|);
    assert hs[|order|].live.Keys == {};
    NothingLiveIsStart(hs[|order|]);
  }

  lemma {:induction false} FreesKeep(hs: seq<State>, order: seq<nat>, n: nat)
    requires FreesAll(hs, order) && Inv(hs[0]) && 0 in hs[0].free && n <= |order|
    requires forall b :: b in hs[0].live <==> b in order
    ensures Inv(hs[n]) && 0 in hs[n].free && hs[n].units == hs[0].units
    ensures forall b :: b in hs[n].live <==> b in hs[0].live && b !in order[..n]
  {
    if n > 0 {
      var es := seq(|order|, i requires 0 <= i < |order| => Free(order[i]));
      FreesKeep(hs, order, n - 1);
      assert Step(hs[n - 1], es[n - 1], hs[n - 1 + 1]);
      StepKeepsStartFree(hs[n - 1], es[n - 1], hs[n]);
      StepKeepsInvIff(hs[n - 1], es[n - 1], hs[n]);
      assert order[..n] == order[..n - 1] + [order[n - 1]];
    }
  }

  /** Some gap exists for every block. */
  lemma GapExists(free: set<nat>, b: nat) returns (p: nat)
    requires free != {} && b !in free
    ensures IsGap(free, p, b)
  {
    var below := set g | g in free && g < b;
    assert forall g :: g in free && g < b ==> g in below;
    p := if below != {} then Highest(below) else Highest(free);
  }

  ghost function Highest(s: set<nat>): (m: nat)
    requires s != {}
    ensures m in s && forall x :: x in s ==> x <= m
  {
    var x :| x in s;
    if s == {x} then x
    else
      assert s - {x} != {};
      var y := Highest(s - {x});
      assert forall z :: z in s ==> z == x || z in s - {x};
      if x < y then y else x
  }

  // ---------------------------------------------------------------- conservation

  ghost function Pick(m: map<nat, nat>): (k: nat)
    requires m != map[]
    ensures k in m
  {
    assert m.Keys != {};
    var k :| k in m.Keys;
    k
  }

  ghost function Total(m: map<nat, nat>): nat {
    if m == map[] then 0 else m[Pick(m)] + Total(m - {Pick(m)})
  }

  lemma {:induction false} TotalSplit(m: map<nat, nat>, k: nat)
    requires k in m
    ensures Total(m) == m[k] + Total(m - {k})
    decreases |m|
  {
    var j := Pick(m);
    if j != k {
      TotalSplit(m - {j}, k);
      TotalSplit(m - {k}, j);
      assert m - {j} - {k} == m - {k} - {j};
    }
  }

  lemma TotalUpdate(m: map<nat, nat>, k: nat, v: nat)
    ensures Total(m[k := v]) == Total(m) - (if k in m then m[k] else 0) + v
  {
    TotalSplit(m[k := v], k);
    if k in m {
      TotalSplit(m, k);
      assert m[k := v] - {k} == m - {k};
    } else {
      assert m[k := v] - {k} == m;
    }
  }

  /** No call creates or loses a unit. */
  lemma StepConserves(h: State, e: Event, h': State)
    requires Inv(h) && Step(h, e, h') && !Harmful(h, e)
    ensures h'.units == h.units
    ensures Total(h'.free) + Total(h'.live) == Total(h.free) + Total(h.live)
  {
    match e
    case Malloc(n) =>
      if b :| Taken(h, n, b, h') { TakenConserves(h, n, b, h'); }
    case Free(b) => ReleasedConserves(h, b, h');
  }

  lemma TakenConserves(h: State, n: nat, b: nat, h': State)
    requires Inv(h) && 1 <= n && Taken(h, n, b, h')
    ensures Total(h'.free) + Total(h'.live) == Total(h.free) + Total(h.live)
  {
    TakenParts(h, n, b);
    PartsConserve(h.free, h.live, b, n, h'.free, h'.live);
  }

  lemma TakenParts(h: State, n: nat, b: nat)
    requires Inv(h) && 1 <= n && b in h.free && n <= h.free[b]
    ensures b !in h.live && (n < h.free[b] ==> b + h.free[b] - n !in h.live)
  {
    if n < h.free[b] { CutIsFresh(h, b, b + h.free[b] - n); }
  }

  lemma PartsConserve(free: map<nat, nat>, live: map<nat, nat>, b: nat, n: nat,
                      free': map<nat, nat>, live': map<nat, nat>)
    requires b in free && n <= free[b] && b !in live && (n < free[b] ==> b + free[b] - n !in live)
    requires if free[b] == n then free' == free - {b} && live' == live[b := n]
             else free' == free[b := free[b] - n] && live' == live[b + free[b] - n := n]
    ensures Total(free') + Total(live') == Total(free) + Total(live)
  {
    if free[b] == n { MoveConserves(free, live, b); } else { CutConserves(free, live, b, n, b + free[b] - n); }
  }

  lemma MoveConserves(free: map<nat, nat>, live: map<nat, nat>, b: nat)
    requires b in free && b !in live
    ensures Total(free - {b}) + Total(live[b := free[b]]) == Total(free) + Total(live)
  {
    TotalSplit(free, b);
    TotalUpdate(live, b, free[b]);
  }

  lemma CutConserves(free: map<nat, nat>, live: map<nat, nat>, b: nat, n: nat, t: nat)
    requires b in free && n <= free[b] && t !in live
    ensures Total(free[b := free[b] - n]) + Total(live[t := n]) == Total(free) + Total(live)
  {
    TotalUpdate(free, b, free[b] - n);
    TotalUpdate(live, t, n);
  }

  lemma ReleasedConserves(h: State, b: nat, h': State)
    requires Inv(h) && b in h.live && Released(h, b, h') && !AbutsSoleBlock(h, b)
    ensures Total(h'.free) + Total(h'.live) == Total(h.free) + Total(h.live)
  {
    TotalSplit(h.live, b);
    GapFacts(h, b, h'.freep);
    AddAboveConserves(h.free, b, h.live[b]);
    JoinBelowConserves(AddAbove(h.free, b, h.live[b]), h'.freep, b);
  }

  lemma AddAboveConserves(free: map<nat, nat>, b: nat, size: nat)
    requires b !in free
    ensures Total(AddAbove(free, b, size)) == Total(free) + size
  {
    var u := b + size;
    if u in free {
      TotalSplit(free, u);
      TotalUpdate(free - {u}, b, size + free[u]);
    } else {
      TotalUpdate(free, b, size);
    }
  }

  lemma JoinBelowConserves(free: map<nat, nat>, p: nat, b: nat)
    requires b in free && p != b
    ensures Total(JoinBelow(free, p, b)) == Total(free)
  {
    if p in free && p + free[p] == b {
      TotalSplit(free, b);
      TotalUpdate(free - {b}, p, free[p] + free[b]);
    }
  }

  lemma CutIsFresh(h: State, b: nat, t: nat)
    requires Inv(h) && b in h.free && b < t < b + h.free[b]
    ensures t !in h.free && t !in h.live && t < h.units
  {
    assert Apart(Blocks(h), b, t) && Fits(h.units, Blocks(h), b);
  }

  /** Handing a block out whole changes no size word. */
  lemma MoveKeepsSizes(free: map<nat, nat>, live: map<nat, nat>, size: seq<nat>, b: nat)
    requires Sizes(free, size) && Sizes(live, size) && b in free
    ensures Sizes(free - {b}, size) && Sizes(live[b := free[b]], size)
  {
    var free', live' := free - {b}, live[b := free[b]];
    assert Sized(free, size, b);
    forall x ensures Sized(free', size, x) && Sized(live', size, x) {
      assert Sized(free, size, x) && Sized(live, size, x);
    }
  }

  /** Cutting the tail off `b` changes two size words. */
  lemma CutKeepsSizes(h: State, size: seq<nat>, b: nat, n: nat, t: nat, size': seq<nat>)
    requires Inv(h) && |size| == h.units && Sizes(h.free, size) && Sizes(h.live, size)
    requires b in h.free && 1 <= n < h.free[b] && t == b + h.free[b] - n && t < h.units
    requires size' == size[b := h.free[b] - n][t := n]
    ensures Sizes(h.free[b := h.free[b] - n], size') && Sizes(h.live[t := n], size')
  {
    CutIsFresh(h, b, t);
    var free', live' := h.free[b := h.free[b] - n], h.live[t := n];
    forall x ensures Sized(free', size', x) && Sized(live', size', x) {
      assert Sized(h.free, size, x) && Sized(h.live, size, x);
    }
  }

  /** Cutting `n` units off the end of the free block `b`, in headers and in blocks. */
  lemma CutBecomes(h: State, size: seq<nat>, prevp: nat, b: nat, n: nat, size': seq<nat>, h': State)
    requires Inv(h) && |size| == h.units && Sizes(h.free, size) && Sizes(h.live, size)
    requires FirstFit(h, n, b) && IsNext(h.free.Keys, prevp, b) && 1 <= n < h.free[b] && b + h.free[b] - n < h.units
    requires size' == size[b := h.free[b] - n][b + h.free[b] - n := n]
    requires h' == State(h.units, h.free[b := h.free[b] - n], h.live[b + h.free[b] - n := n], prevp)
    ensures Sizes(h'.free, size') && Sizes(h'.live, size') && h'.free.Keys == h.free.Keys
    ensures Taken(h, n, b, h') && (Inv(h') <==> !TakesSoleBlock(h, n))
  {
    CutKeepsSizes(h, size, b, n, b + h.free[b] - n, size');
    TakeTail(h, n, prevp, b);
    assert h.free[b := h.free[b] - n].Keys == h.free.Keys;
  }

  lemma FreeInHeap(h: State)
    requires Inv(h)
    ensures forall f :: f in h.free ==> f < h.units
  {
    forall f | f in h.free ensures f < h.units { assert Fits(h.units, Blocks(h), f); }
  }

  lemma SearchBegins(h: State, n: nat, q: nat)
    requires Inv(h) && IsNext(h.free.Keys, h.freep, q)
    ensures NoneBefore(h, n, q) && Met(h, [], q)
  {
    FreeInHeap(h);
  }

  lemma SearchMovesOn(h: State, n: nat, looked: seq<nat>, p: nat, q: nat)
    requires Inv(h) && IsNext(h.free.Keys, p, q) && NoneBefore(h, n, p) && Met(h, looked, p)
    requires h.free[p] < n && p != h.freep
    ensures NoneBefore(h, n, q) && Met(h, looked + [p], q)
    ensures Lap(h.units, h.freep, p) < Lap(h.units, h.freep, q) <= h.units
  {
    FreeInHeap(h);
    forall g | g in h.free && Lap(h.units, h.freep, g) < Lap(h.units, h.freep, q) ensures h.free[g] < n {
      assert g == p || Lap(h.units, h.freep, g) < Lap(h.units, h.freep, p);
    }
  }

  lemma SearchFails(h: State, n: nat)
    requires Inv(h) && NoneBefore(h, n, h.freep) && h.free[h.freep] < n
    ensures forall g :: g in h.free ==> h.free[g] < n
  {
    FreeInHeap(h);
    forall g | g in h.free ensures h.free[g] < n {
      assert g != h.freep ==> Lap(h.units, h.freep, g) < Lap(h.units, h.freep, h.freep);
    }
  }

  /** Where the walk of `free` stops, and that it comes closer until then. */
  lemma WalkStops(h: State, looked: seq<nat>, p: nat, q: nat, gap: nat, b: nat)
    requires Inv(h) && IsNext(h.free.Keys, p, q) && IsGap(h.free.Keys, gap, b) && b !in h.free
    requires Passed(h, gap, looked, p)
    ensures p == gap <==> (b > p && b < q) || (p >= q && (b > p || b < q))
    ensures p != gap ==> 0 <= Ahead(h.units, q, gap) < Ahead(h.units, p, gap) && Passed(h, gap, looked + [p], q)
  {
    FreeInHeap(h);
  }

  /** Line 94: the list successor of the gap starts where `b` ends exactly when some free block does. */
  lemma UpperIsNext(h: State, b: nat, p: nat, q: nat)
    requires Inv(h) && b in h.live && IsGap(h.free.Keys, p, b) && IsNext(h.free.Keys, p, q)
    ensures b + h.live[b] == q <==> b + h.live[b] in h.free
  {
    GapFacts(h, b, p);
    assert Fits(h.units, Blocks(h), b);
  }

  /** Lines 94-108 on the link words: `b` enters the list behind `p`, taking the place of the block it absorbs. */
  lemma InsertAboveKeepsLinks(h: State, ptr: seq<int>, b: nat, p: nat, q: nat, ptr': seq<int>)
    requires Inv(h) && Links(h.free.Keys, ptr) && |ptr| == h.units
    requires b in h.live && IsGap(h.free.Keys, p, b) && IsNext(h.free.Keys, p, q) && p != b + h.live[b]
    requires p < h.units && b < h.units && q < h.units && ptr[p] == q
    requires ptr' == ptr[b := if b + h.live[b] == q then ptr[q] else q][p := b]
    ensures Links(AddAbove(h.free, b, h.live[b]).Keys, ptr')
  {
    var free, u := h.free.Keys, b + h.live[b];
    UpperIsNext(h, b, p, q);
    if u in free {
      var rest, ptrA := free - {u}, ptr[p := ptr[u]];
      UnlinkKeepsLinks(free, ptr, p, u, rest, ptrA);
      assert ptr' == ptrA[b := ptrA[p]][p := b];
      assert AddAbove(h.free, b, h.live[b]).Keys == rest + {b};
      LinkKeepsLinks(rest, ptrA, p, b, rest + {b}, ptr');
    } else {
      assert AddAbove(h.free, b, h.live[b]).Keys == free + {b};
      LinkKeepsLinks(free, ptr, p, b, free + {b}, ptr');
    }
  }

  lemma JoinBelowKeepsLinks(free: map<nat, nat>, ptr: seq<int>, p: nat, b: nat, ptr': seq<int>)
    requires b in free && p in free && p != b && p < |ptr| && b < |ptr|
    requires Links(free.Keys, ptr) && ptr[p] == b
    requires ptr' == if p + free[p] == b then ptr[p := ptr[b]] else ptr
    ensures Links(JoinBelow(free, p, b).Keys, ptr')
  {
    assert Linked(free.Keys, ptr, p);
    if p + free[p] == b {
      UnlinkKeepsLinks(free.Keys, ptr, p, b, free.Keys - {b}, ptr');
      assert JoinBelow(free, p, b).Keys == free.Keys - {b};
    }
  }

  /** The size words follow both merges. */
  lemma InsertKeepsSizes(h: State, size: seq<nat>, b: nat, p: nat, size1: seq<nat>, size2: seq<nat>, h': State)
    requires Inv(h) && Sizes(h.free, size) && Sizes(h.live, size)
    requires b in h.live && Released(h, b, h') && h'.freep == p && b < |size|
    requires size1 == size[b := if b + h.live[b] in h.free then h.live[b] + h.free[b + h.live[b]] else h.live[b]]
    requires p < |size| && p in h.free && p != b && p != b + h.live[b]
    requires size2 == if p + size1[p] == b then size1[p := size1[p] + size1[b]] else size1
    ensures Sizes(h'.free, size2) && Sizes(h'.live, size2)
  {
    var free1, u := AddAbove(h.free, b, h.live[b]), b + h.live[b];
    assert Sized(h.free, size, p) && Sized(h.live, size, b) && Sized(h.free, size, u);
    forall x ensures Sized(h'.free, size2, x) && Sized(h'.live, size2, x) {
      assert Sized(h.free, size, x) && Sized(h.live, size, x);
    }
  }

  lemma InsertKeepsHeaders(h: State, ptr: seq<int>, size: seq<nat>, p: nat, b: nat,
                           ptr1: seq<int>, size1: seq<nat>, ptr2: seq<int>, size2: seq<nat>, h': State)
    requires Inv(h) && |ptr| == |size| == h.units && Links(h.free.Keys, ptr) && Sizes(h.free, size)
      && Sizes(h.live, size)
    requires b in h.live && Released(h, b, h') && h'.freep == p && p != b + h.live[b] && p in h.free
    requires b < h.units && p < h.units && 0 <= ptr[p] < h.units
    requires ptr1 == ptr[b := if b + size[b] == ptr[p] then ptr[ptr[p]] else ptr[p]]
    requires size1 == size[b := if b + size[b] == ptr[p] then size[b] + size[ptr[p]] else size[b]]
    requires ptr2 == ptr1[p := if p + size1[p] == b then ptr1[b] else b]
    requires size2 == if p + size1[p] == b then size1[p := size1[p] + size1[b]] else size1
    ensures Links(h'.free.Keys, ptr2) && Sizes(h'.free, size2) && Sizes(h'.live, size2)
  {
    assert Linked(h.free.Keys, ptr, p);
    var q, free1 := ptr[p], AddAbove(h.free, b, h.live[b]);
    GapFacts(h, b, p);
    UpperIsNext(h, b, p, q);
    assert Sized(h.free, size, p) && Sized(h.live, size, b) && Sized(h.free, size, q);
    InsertAboveKeepsLinks(h, ptr, b, p, q, ptr1[p := b]);
    JoinBelowKeepsLinks(free1, ptr1[p := b], p, b, ptr2);
    InsertKeepsSizes(h, size, b, p, size1, size2, h');
  }

  /** All of lines 94-108: the block is released, and the headers agree unless the call is harmful. */
  lemma InsertReleases(h: State, ptr: seq<int>, size: seq<nat>, p: nat, b: nat,
                       ptr1: seq<int>, size1: seq<nat>, ptr2: seq<int>, size2: seq<nat>, h': State)
    requires Inv(h) && |ptr| == |size| == h.units && Links(h.free.Keys, ptr) && Sizes(h.free, size)
      && Sizes(h.live, size)
    requires b in h.live && IsGap(h.free.Keys, p, b) && b < h.units && p < h.units && 0 <= ptr[p] < h.units
    requires h' == State(h.units, JoinBelow(AddAbove(h.free, b, h.live[b]), p, b), h.live - {b}, p)
    requires ptr1 == ptr[b := if b + size[b] == ptr[p] then ptr[ptr[p]] else ptr[p]]
    requires size1 == size[b := if b + size[b] == ptr[p] then size[b] + size[ptr[p]] else size[b]]
    requires ptr2 == ptr1[p := if p + size1[p] == b then ptr1[b] else b]
    requires size2 == if p + size1[p] == b then size1[p := size1[p] + size1[b]] else size1
    ensures Released(h, b, h') && (Inv(h') <==> !AbutsSoleBlock(h, b))
    ensures !AbutsSoleBlock(h, b) ==> Links(h'.free.Keys, ptr2) && Sizes(h'.free, size2) && Sizes(h'.live, size2)
  {
    ReleasedKeepsInvIff(h, b, h');
    GapFacts(h, b, p);
    if p == b + h.live[b] {
      assert forall g :: g in h.free <==> g == p;
    } else {
      InsertKeepsHeaders(h, ptr, size, p, b, ptr1, size1, ptr2, size2, h');
    }
  }
}
