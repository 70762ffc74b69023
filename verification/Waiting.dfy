/** How long a VCPU waits for its turn (sys/kernel/scheduler.c), critical events included. */
module Waiting {
  import opened Sharing

  // ---------------------------------------------------------------- sums

  function Sum(c: seq<nat>): nat {
    if c == [] then 0 else Sum(c[..|c| - 1]) + c[|c| - 1]
  }

  lemma {:induction false} SumSplit(a: seq<nat>, b: seq<nat>)
    ensures Sum(a + b) == Sum(a) + Sum(b)
  {
    if b == [] {
      assert a + b == a;
    } else {
      SumSplit(a, b[..|b| - 1]);
      assert (a + b)[..|a + b| - 1] == a + b[..|b| - 1];
    }
  }

  lemma SumUpdate(c: seq<nat>, i: nat, x: nat)
    requires i < |c|
    ensures Sum(c[i := x]) == Sum(c) - c[i] + x
  {
    assert c == c[..i] + [c[i]] + c[i + 1..] && c[i := x] == c[..i] + [x] + c[i + 1..];
    SumSplit(c[..i] + [c[i]], c[i + 1..]);
    SumSplit(c[..i] + [x], c[i + 1..]);
    SumSplit(c[..i], [c[i]]);
    SumSplit(c[..i], [x]);
  }

  lemma {:induction false} SumBelow(c: seq<nat>, d: seq<nat>)
    requires |c| == |d| && forall j :: 0 <= j < |c| ==> c[j] <= d[j]
    ensures Sum(c) <= Sum(d)
  {
    if c != [] { SumBelow(c[..|c| - 1], d[..|d| - 1]); }
  }

  lemma {:induction false} SumZero(n: nat)
    ensures Sum(seq(n, _ => 0)) == 0
  {
    if n > 0 {
      assert seq(n, _ => 0)[..n - 1] == seq(n - 1, _ => 0);
      SumZero(n - 1);
    }
  }

  lemma FactorsCompare(c: nat, d: nat, p: nat)
    requires 1 <= p && c * p < d * p
    ensures c < d
  {
  }

  // ---------------------------------------------------------------- counting turns

  function TurnsTaken(es: seq<Event>): nat {
    if es == [] then 0 else TurnsTaken(es[..|es| - 1]) + if es[|es| - 1].Schedule? && es[|es| - 1].d.Turn? then 1 else 0
  }

  function Bypasses(es: seq<Event>): nat {
    if es == [] then 0 else Bypasses(es[..|es| - 1]) + if es[|es| - 1].Schedule? && es[|es| - 1].d.Bypass? then 1 else 0
  }

  /** The VCPU with that id is picked by priority. */
  predicate TakesTurn(s: System, e: Event, id: nat) {
    e.Schedule? && e.d.Turn? && e.d.b < |s.q| && s.q[e.d.b].id == id
  }

  function Wait(p: nat, u: nat): nat
    requires 1 <= u
  {
    p / u + 1
  }

  /** How many turns each of the others can take while VCPU `v` waits for one. */
  function Waits(q: seq<Vcpu>, v: nat): (w: seq<nat>)
    requires v < |q| && forall j :: 0 <= j < |q| ==> 1 <= q[j].priority
    ensures |w| == |q|
  {
    seq(|q|, j requires 0 <= j < |q| => if j == v then 0 else Wait(q[v].priority, q[j].priority))
  }

  /** Where the VCPU at `j` stood before the queue of `n` was rotated by `off`. */
  function Origin(n: nat, off: nat, j: nat): (i: nat)
    requires j < n && off <= n
    ensures i < n
  {
    if j + off < n then j + off else j + off - n
  }

  /** The turns `c`, by position in `q0`, led from `q0` to `q`, now rotated by `off`; `spent` is what they cost. */
  ghost predicate Tallied(q0: seq<Vcpu>, q: seq<Vcpu>, off: nat, c: seq<nat>, spent: int) {
    && |q| == |q0| == |c| && off <= |q0|
    && forall j :: 0 <= j < |q| ==> Entry(q0[Origin(|q|, off, j)], q[j], c[Origin(|q|, off, j)], spent)
  }

  ghost predicate Entry(v0: Vcpu, v: Vcpu, turns: nat, spent: int) {
    v.id == v0.id && v.priority == v0.priority && turns * v0.priority == spent + v.priority_rem - v0.priority_rem
  }

  lemma NothingTallied(q: seq<Vcpu>)
    ensures Tallied(q, q, 0, seq(|q|, _ => 0), 0)
  {
  }

  /** `v` is `u` as far as turns are concerned. */
  ghost predicate SameShare(u: Vcpu, v: Vcpu) {
    v.id == u.id && v.priority == u.priority && v.priority_rem == u.priority_rem
  }

  ghost predicate Moved(q: seq<Vcpu>, shift: nat, q': seq<Vcpu>) {
    && |q'| == |q| && shift <= |q|
    && forall j :: 0 <= j < |q| ==> SameShare(q[Origin(|q|, shift, j)], q'[j])
  }

  /** Apart from a turn, a step only moves the VCPUs, with what they have left. */
  lemma StepMoves(s: System, e: Event, s': System)
    requires Inv(s) && Step(s, e, s') && !(e.Schedule? && e.d.Turn?)
    ensures Moved(s.q, Shift(e), s'.q)
  {
    if e.Schedule? && e.d.Bypass? { BypassMoves(s.q, e.d.i, s'.q); }
  }

  lemma BypassMoves(q: seq<Vcpu>, i: nat, q': seq<Vcpu>)
    requires i < |q| && q' == Rotated(q[i := Served(q[i])], i + 1)
    ensures Moved(q, i + 1, q')
  {
    forall j | 0 <= j < |q| ensures SameShare(q[Origin(|q|, i + 1, j)], q'[j]) {
      RotatedAt(q[i := Served(q[i])], i + 1, j);
    }
  }

  /** Two rotations are one. */
  function Together(n: nat, off: nat, shift: nat): (r: nat)
    requires off <= n && shift <= n
    ensures r <= n
    ensures forall j :: 0 <= j < n ==> Origin(n, off, Origin(n, shift, j)) == Origin(n, r, j)
  {
    if off + shift <= n then off + shift else off + shift - n
  }

  lemma MoveKeepsTally(q0: seq<Vcpu>, q: seq<Vcpu>, shift: nat, q': seq<Vcpu>, off: nat, c: seq<nat>, spent: int)
    requires Moved(q, shift, q') && Tallied(q0, q, off, c, spent)
    ensures Tallied(q0, q', Together(|q|, off, shift), c, spent)
  {
    var n, r := |q|, Together(|q|, off, shift);
    forall j | 0 <= j < n ensures Entry(q0[Origin(n, r, j)], q'[j], c[Origin(n, r, j)], spent) {
      var i := Origin(n, shift, j);
      assert SameShare(q[i], q'[j]) && Entry(q0[Origin(n, off, i)], q[i], c[Origin(n, off, i)], spent);
    }
  }

  lemma TurnKeepsTally(q0: seq<Vcpu>, s: System, b: nat, s': System, off: nat, c: seq<nat>, spent: int)
    requires Step(s, Schedule(Turn(b)), s') && AllRunning(s.q) && Tallied(q0, s.q, off, c, spent)
    requires forall i, j :: 0 <= i < j < |s.q| ==> s.q[i].id != s.q[j].id
    ensures b < |s.q|
    ensures var o := Origin(|s.q|, off, b); Tallied(q0, s'.q, off, c[o := c[o] + 1], spent + s.q[b].priority_rem)
  {
    var n, o := |s.q|, Origin(|s.q|, off, b);
    forall j | 0 <= j < n
      ensures Entry(q0[Origin(n, off, j)], s'.q[j], c[o := c[o] + 1][Origin(n, off, j)], spent + s.q[b].priority_rem)
    {
      assert Entry(q0[Origin(n, off, j)], s.q[j], c[Origin(n, off, j)], spent);
      if j == b { OneMore(c[o], q0[o].priority); }
    }
  }

  lemma OneMore(c: nat, p: nat)
    ensures (c + 1) * p == c * p + p
  {
  }

  /** A run and its tally; what is never picked has no turns. */
  lemma {:induction false} RunIsTallied(ss: seq<System>, es: seq<Event>, v: nat, n: nat)
      returns (off: nat, c: seq<nat>, spent: int)
    requires Run(ss, es) && Inv(ss[0]) && n <= |es| && v < |ss[0].q|
    requires forall k :: 0 <= k < |ss| ==> AllRunning(ss[k].q)
    requires forall k :: 0 <= k < n ==> !TakesTurn(ss[k], es[k], ss[0].q[v].id)
    ensures Tallied(ss[0].q, ss[n].q, off, c, spent) && c[v] == 0 && Sum(c) == TurnsTaken(es[..n])
  {
    var q0 := ss[0].q;
    if n == 0 {
      off, c, spent := 0, seq(|q0|, _ => 0), 0;
      NothingTallied(q0);
      SumZero(|q0|);
    } else {
      off, c, spent := RunIsTallied(ss, es, v, n - 1);
      RunKeepsInv(ss, es, n - 1);
      assert StepAt(ss, es, n - 1);
      assert es[..n][..n - 1] == es[..n - 1];
      off, c, spent := StepIsTallied(q0, ss[n - 1], es[n - 1], ss[n], off, c, spent, v);
    }
  }

  lemma StepIsTallied(q0: seq<Vcpu>, s: System, e: Event, s': System, off: nat, c: seq<nat>, spent: int, v: nat)
      returns (off': nat, c': seq<nat>, spent': int)
    requires Inv(s) && Step(s, e, s') && AllRunning(s.q) && Tallied(q0, s.q, off, c, spent)
    requires v < |q0| && c[v] == 0 && !TakesTurn(s, e, q0[v].id)
    ensures Tallied(q0, s'.q, off', c', spent') && c'[v] == 0
    ensures Sum(c') == Sum(c) + if e.Schedule? && e.d.Turn? then 1 else 0
  {
    if e.Schedule? && e.d.Turn? {
      c', spent' := TurnIsTallied(q0, s, e.d.b, s', off, c, spent, v);
      off' := off;
    } else {
      StepMoves(s, e, s');
      MoveKeepsTally(q0, s.q, Shift(e), s'.q, off, c, spent);
      off', c', spent' := Together(|s.q|, off, Shift(e)), c, spent;
    }
  }

  lemma TurnIsTallied(q0: seq<Vcpu>, s: System, b: nat, s': System, off: nat, c: seq<nat>, spent: int, v: nat)
      returns (c': seq<nat>, spent': int)
    requires Inv(s) && Step(s, Schedule(Turn(b)), s') && AllRunning(s.q) && Tallied(q0, s.q, off, c, spent)
    requires v < |q0| && c[v] == 0 && s.q[b].id != q0[v].id
    ensures Tallied(q0, s'.q, off, c', spent') && c'[v] == 0 && Sum(c') == Sum(c) + 1
  {
    TurnKeepsTally(q0, s, b, s', off, c, spent);
    var o := Origin(|s.q|, off, b);
    assert Entry(q0[o], s.q[b], c[o], spent);
    SumUpdate(c, o, c[o] + 1);
    c', spent' := c[o := c[o] + 1], spent + s.q[b].priority_rem;
  }

  /** Every VCPU of a rotated queue is somewhere. */
  lemma FromOrigin(n: nat, off: nat, i: nat) returns (j: nat)
    requires i < n && off <= n
    ensures j < n && Origin(n, off, j) == i
  {
    j := if off <= i then i - off else i + n - off;
  }

  lemma QuotientBound(c: nat, p: nat, x: nat)
    requires 1 <= p && c * p <= x + p
    ensures c <= Wait(x, p)
  {
    var w := x / p;
    assert x == p * w + x % p && x % p < p;
    TwoMore(w, p);
    FactorsCompare(c, w + 2, p);
  }

  lemma TwoMore(w: nat, p: nat)
    ensures (w + 2) * p == p * w + 2 * p
  {
  }

  lemma TallyBelowWaits(q0: seq<Vcpu>, q: seq<Vcpu>, off: nat, c: seq<nat>, spent: int, v: nat)
    requires Tallied(q0, q, off, c, spent) && Bounded(q0) && Bounded(q) && v < |q0| && c[v] == 0
    requires forall j :: 0 <= j < |q0| ==> 1 <= q0[j].priority
    ensures Sum(c) <= Sum(Waits(q0, v))
  {
    var x := FromOrigin(|q|, off, v);
    assert Entry(q0[v], q[x], 0, spent);
    forall i | 0 <= i < |q0| ensures c[i] <= Waits(q0, v)[i] {
      if i != v {
        var j := FromOrigin(|q|, off, i);
        assert Entry(q0[i], q[j], c[i], spent);
        QuotientBound(c[i], q0[i].priority, q0[v].priority);
      }
    }
    SumBelow(c, Waits(q0, v));
  }

  /** While `v` gets no turn, the others together get at most the sum of priority(v) / priority(u) + 1 over all
      others `u`, in every run in which all VCPUs stay running, whatever critical events there are. */
  lemma BoundedWaiting(ss: seq<System>, es: seq<Event>, v: nat)
    requires Run(ss, es) && Inv(ss[0]) && v < |ss[0].q|
    requires forall k :: 0 <= k < |ss| ==> AllRunning(ss[k].q)
    requires forall j :: 0 <= j < |ss[0].q| ==> 1 <= ss[0].q[j].priority
    requires forall k :: 0 <= k < |es| ==> !TakesTurn(ss[k], es[k], ss[0].q[v].id)
    ensures TurnsTaken(es) <= Sum(Waits(ss[0].q, v))
  {
    var off, c, spent := RunIsTallied(ss, es, v, |es|);
    assert es[..|es|] == es;
    RunKeepsInv(ss, es, |es|);
    TallyBelowWaits(ss[0].q, ss[|es|].q, off, c, spent, v);
  }

  // ---------------------------------------------------------------- every call serves somebody

  /** Some priority leaves its VCPU eligible at all times. */
  ghost predicate SomeLower(q: seq<Vcpu>) {
    exists j :: 0 <= j < |q| && q[j].priority < HIGHEST
  }

  /** With all VCPUs running and some priority below 255, no call is idle. */
  lemma SomebodyIsPicked(q: seq<Vcpu>, d: Decision, q': seq<Vcpu>)
    requires Bounded(q) && AllRunning(q) && SomeLower(q) && Decided(q, d, q')
    ensures d != Idle
  {
    var j :| 0 <= j < |q| && q[j].priority < HIGHEST;
    assert Eligible(q[j]);
  }

  /** In a queue as create_vcpu leaves it, with no critical event, a call is idle exactly when all priorities are 255
      or more, and then it is idle for good. */
  lemma FreshIdlesIff(q: seq<Vcpu>, d: Decision, q': seq<Vcpu>)
    requires Created(q) && AllRunning(q) && NoneUrgent(q) && Decided(q, d, q')
    ensures d == Idle <==> !SomeLower(q)
    ensures d == Idle ==> q' == q
  {
    if j :| 0 <= j < |q| && q[j].priority < HIGHEST { assert Eligible(q[j]); }
    if d.Turn? { assert q[d.b].priority < HIGHEST; }
  }

  /** A queue keeps its priorities. */
  lemma {:induction false} LowerStays(ss: seq<System>, es: seq<Event>, n: nat)
    requires Run(ss, es) && Inv(ss[0]) && SomeLower(ss[0].q) && n < |ss|
    ensures SomeLower(ss[n].q)
  {
    if n > 0 {
      LowerStays(ss, es, n - 1);
      RunKeepsInv(ss, es, n - 1);
      assert StepAt(ss, es, n - 1);
      StepKeepsLower(ss[n - 1], es[n - 1], ss[n]);
    }
  }

  lemma StepKeepsLower(s: System, e: Event, s': System)
    requires Inv(s) && Step(s, e, s') && SomeLower(s.q)
    ensures SomeLower(s'.q)
  {
    StepKeepsInv(s, e, s');
    var i :| 0 <= i < |s.q| && s.q[i].priority < HIGHEST;
    var j := FromOrigin(|s.q|, Shift(e), i);
    RotatedAt(s.q, Shift(e), j);
    assert s'.q[j].priority < HIGHEST;
  }

  lemma {:induction false} CallsCount(ss: seq<System>, es: seq<Event>, n: nat)
    requires Run(ss, es) && Inv(ss[0]) && SomeLower(ss[0].q) && n <= |es|
    requires forall k :: 0 <= k < |ss| ==> AllRunning(ss[k].q)
    ensures Calls(es[..n]) == TurnsTaken(es[..n]) + Bypasses(es[..n])
  {
    if n > 0 {
      CallsCount(ss, es, n - 1);
      assert es[..n][..n - 1] == es[..n - 1];
      LowerStays(ss, es, n - 1);
      RunKeepsInv(ss, es, n - 1);
      assert StepAt(ss, es, n - 1);
      if es[n - 1].Schedule? { SomebodyIsPicked(ss[n - 1].q, es[n - 1].d, ss[n].q); }
    }
  }

  /** No VCPU starves. With all VCPUs running, no priority 0 and some priority below 255, every VCPU `v` gets a turn
      within as many scheduler calls as the others' waits add up to, one more, and one for each critical event that
      is served meanwhile. */
  lemma NoStarvation(ss: seq<System>, es: seq<Event>, v: nat)
    requires Run(ss, es) && Inv(ss[0]) && v < |ss[0].q| && SomeLower(ss[0].q)
    requires forall k :: 0 <= k < |ss| ==> AllRunning(ss[k].q)
    requires forall j :: 0 <= j < |ss[0].q| ==> 1 <= ss[0].q[j].priority
    requires Calls(es) > Sum(Waits(ss[0].q, v)) + Bypasses(es)
    ensures exists k :: 0 <= k < |es| && TakesTurn(ss[k], es[k], ss[0].q[v].id)
  {
    CallsCount(ss, es, |es|);
    assert es[..|es|] == es;
    if forall k :: 0 <= k < |es| ==> !TakesTurn(ss[k], es[k], ss[0].q[v].id) {
      BoundedWaiting(ss, es, v);
    }
  }

  /** A VCPU of the highest priority, 255, gets no turn, alone in the queue. */
  lemma HighestPriorityIdles()
    ensures var q := [Vcpu(1, 255, 255, false, true, 0)];
      Created(q) && AllRunning(q) && Decided(q, Idle, q)
  {
  }
}
