/** What the VCPU scheduler (sys/kernel/scheduler.c) does to the ready queue, and how it shares the processor. */
module Sharing {
  import opened Wrappers
  import opened Words

  const HIGHEST := 255

  /** The scheduling fields of a VCPU; `priority_rem` is what is left until its next turn. */
  datatype Vcpu = Vcpu(id: nat, priority: nat, priority_rem: nat, critical: bool, running: bool, bgjobs: nat)

  function Urgent(v: Vcpu): bool { v.critical && v.running }

  function Eligible(v: Vcpu): bool { v.running && v.priority_rem < HIGHEST }

  // ---------------------------------------------------------------- one scheduling decision

  /** The first urgent VCPU, if any. */
  ghost predicate IsFirstUrgent(q: seq<Vcpu>, i: nat) {
    i < |q| && Urgent(q[i]) && forall j :: 0 <= j < i ==> !Urgent(q[j])
  }

  ghost predicate NoneUrgent(q: seq<Vcpu>) {
    forall j :: 0 <= j < |q| ==> !Urgent(q[j])
  }

  /** The first of the eligible VCPUs with the least left. */
  ghost predicate IsBest(q: seq<Vcpu>, b: nat) {
    && b < |q| && Eligible(q[b])
    && (forall j :: 0 <= j < |q| && q[j].running ==> q[b].priority_rem <= q[j].priority_rem)
    && (forall j :: 0 <= j < b && q[j].running ==> q[b].priority_rem < q[j].priority_rem)
  }

  /** The first `i` VCPUs hold no urgent one; `at` is the best of them, with `p` left, if `found`. */
  ghost predicate ScannedTo(q: seq<Vcpu>, i: nat, found: bool, at: nat, p: nat) {
    && i <= |q| && (forall j :: 0 <= j < i ==> !Urgent(q[j]))
    && if !found then p == HIGHEST && forall j :: 0 <= j < i ==> !Eligible(q[j])
       else at < i && Eligible(q[at]) && p == q[at].priority_rem
            && (forall j :: 0 <= j < i && q[j].running ==> p <= q[j].priority_rem)
            && (forall j :: 0 <= j < at && q[j].running ==> p < q[j].priority_rem)
  }

  lemma ScanStep(q: seq<Vcpu>, i: nat, found: bool, at: nat, p: nat)
    requires ScannedTo(q, i, found, at, p) && i < |q| && !Urgent(q[i])
    ensures if p > q[i].priority_rem && q[i].running then ScannedTo(q, i + 1, true, i, q[i].priority_rem)
            else ScannedTo(q, i + 1, found, at, p)
  {
  }

  /** What a scan of the whole queue comes to: an urgent VCPU at `at`, or else the best one, if `found`. */
  ghost predicate ScanFinds(q: seq<Vcpu>, urgent: bool, found: bool, at: nat) {
    if urgent then IsFirstUrgent(q, at)
    else NoneUrgent(q) && if found then IsBest(q, at) else forall j :: 0 <= j < |q| ==> !Eligible(q[j])
  }

  lemma ScanStops(q: seq<Vcpu>, i: nat, found: bool, at: nat, p: nat)
    requires ScannedTo(q, i, found, at, p) && i < |q| && Urgent(q[i])
    ensures ScanFinds(q, true, true, i)
  {
  }

  lemma ScanEnds(q: seq<Vcpu>, found: bool, at: nat, p: nat)
    requires ScannedTo(q, |q|, found, at, p)
    ensures ScanFinds(q, false, found, at)
  {
  }

  function Bumped(v: Vcpu): Vcpu {
    v.(bgjobs := (v.bgjobs + 1) % WORD)
  }

  /** Moves the first `n` VCPUs behind the others. */
  function Rotated<T>(q: seq<T>, n: nat): seq<T>
    requires n <= |q|
  {
    q[n..] + q[..n]
  }

  function Served(v: Vcpu): Vcpu {
    Bumped(v).(critical := false)
  }

  /** The queue after VCPU `b` was picked by priority: it starts over, and the other running ones come nearer by what
      it had left. */
  function Charged(q: seq<Vcpu>, b: nat): (r: seq<Vcpu>)
    requires b < |q| && forall j :: 0 <= j < |q| && q[j].running ==> q[b].priority_rem <= q[j].priority_rem
    ensures |r| == |q|
  {
    seq(|q|, j requires 0 <= j < |q| =>
      if j == b then Bumped(q[j].(priority_rem := q[j].priority))
      else if q[j].running then q[j].(priority_rem := q[j].priority_rem - q[b].priority_rem)
      else q[j])
  }

  /** The same for the first `i` VCPUs only, before the picked one starts over. */
  function Nearer(q: seq<Vcpu>, b: nat, i: nat): (r: seq<Vcpu>)
    requires b < |q| && i <= |q| && forall j :: 0 <= j < |q| && q[j].running ==> q[b].priority_rem <= q[j].priority_rem
    ensures |r| == |q|
  {
    seq(|q|, j requires 0 <= j < |q| =>
      if j < i && j != b && q[j].running then q[j].(priority_rem := q[j].priority_rem - q[b].priority_rem) else q[j])
  }

  lemma NearerStep(q: seq<Vcpu>, b: nat, i: nat)
    requires b < |q| && i < |q| && forall j :: 0 <= j < |q| && q[j].running ==> q[b].priority_rem <= q[j].priority_rem
    ensures Nearer(q, b, 0) == q && Nearer(q, b, i)[b] == q[b] && Nearer(q, b, i)[i] == q[i]
    ensures Nearer(q, b, i + 1) ==
      if i != b && q[i].running then Nearer(q, b, i)[i := q[i].(priority_rem := q[i].priority_rem - q[b].priority_rem)]
      else Nearer(q, b, i)
  {
  }

  lemma NearerThenStartOver(q: seq<Vcpu>, b: nat)
    requires b < |q| && forall j :: 0 <= j < |q| && q[j].running ==> q[b].priority_rem <= q[j].priority_rem
    ensures Nearer(q, b, |q|)[b] == q[b]
    ensures Charged(q, b) == Nearer(q, b, |q|)[b := Bumped(q[b].(priority_rem := q[b].priority))]
  {
  }

  datatype Decision = Bypass(i: nat) | Turn(b: nat) | Idle

  /** `round_robin_scheduler` decides `d` and leaves `q'` in the queue. */
  ghost predicate Decided(q: seq<Vcpu>, d: Decision, q': seq<Vcpu>) {
    match d
    case Bypass(i) => IsFirstUrgent(q, i) && q' == Rotated(q[i := Served(q[i])], i + 1)
    case Turn(b) => NoneUrgent(q) && IsBest(q, b) && q' == Charged(q, b)
    case Idle => NoneUrgent(q) && (forall j :: 0 <= j < |q| ==> !Eligible(q[j])) && q' == q
  }

  // ---------------------------------------------------------------- the system

  /** `pending` counts critical events; `executing` is the id of the VCPU that has the processor. */
  datatype System = System(q: seq<Vcpu>, pending: nat, executing: Option<nat>)

  datatype Event =
    | Schedule(d: Decision)          // run_scheduler reached its round-robin call
    | FastInterrupt(i: nat)          // a driver delivers to the VCPU at position i
    | SetRunning(i: nat, on: bool)   // a driver blocks or wakes the VCPU at position i

  function PickedId(q: seq<Vcpu>, d: Decision): Option<nat>
    requires (d.Bypass? ==> d.i < |q|) && (d.Turn? ==> d.b < |q|)
  {
    match d
    case Bypass(i) => Some(q[i].id)
    case Turn(b) => Some(q[b].id)
    case Idle => None
  }

  /** `fast_interrupt_delivery` marks a VCPU that does not have the processor and is not marked yet. */
  function Delivered(s: System, i: nat): System
    requires i < |s.q|
  {
    if s.executing != Some(s.q[i].id) && !s.q[i].critical
    then s.(q := s.q[i := s.q[i].(critical := true)], pending := s.pending + 1)
    else s
  }

  ghost predicate Step(s: System, e: Event, s': System) {
    match e
    case Schedule(d) =>
      Decided(s.q, d, s'.q)
      && s'.executing == PickedId(s.q, d)
      && s'.pending == if d.Bypass? then (s.pending - 1) % WORD else s.pending
    case FastInterrupt(i) => i < |s.q| && s' == Delivered(s, i)
    case SetRunning(i, on) => i < |s.q| && s' == s.(q := s.q[i := s.q[i].(running := on)])
  }

  ghost predicate Run(ss: seq<System>, es: seq<Event>) {
    |ss| == |es| + 1 && forall k: nat :: StepAt(ss, es, k)
  }

  ghost predicate StepAt(ss: seq<System>, es: seq<Event>, k: nat)
    requires |ss| == |es| + 1
  {
    k < |es| ==> Step(ss[k], es[k], ss[k + 1])
  }

  /** What a scan found is what is decided. */
  lemma FoundIsDecided(q: seq<Vcpu>, urgent: bool, found: bool, at: nat, q': seq<Vcpu>)
    requires ScanFinds(q, urgent, found, at)
    requires if urgent then q' == Rotated(q[at := Served(q[at])], at + 1)
             else if found then q' == Charged(q, at) else q' == q
    ensures Decided(q, if urgent then Bypass(at) else if found then Turn(at) else Idle, q')
  {
  }

  lemma DecisionIsStep(s: System, d: Decision, s': System)
    requires Decided(s.q, d, s'.q) && s'.executing == PickedId(s.q, d)
    requires s'.pending == if d.Bypass? then (s.pending - 1) % WORD else s.pending
    ensures Step(s, Schedule(d), s')
  {
  }

  // ---------------------------------------------------------------- what every step keeps

  function Criticals(q: seq<Vcpu>): (n: nat)
    ensures n <= |q|
  {
    if q == [] then 0 else Criticals(q[..|q| - 1]) + if q[|q| - 1].critical then 1 else 0
  }

  ghost predicate Inv(s: System) {
    |s.q| < WORD && Bounded(s.q) && DistinctIds(s.q) && s.pending == Criticals(s.q)
  }

  ghost predicate Bounded(q: seq<Vcpu>) {
    forall j :: 0 <= j < |q| ==> q[j].priority_rem <= q[j].priority <= HIGHEST
  }

  ghost predicate DistinctIds(q: seq<Vcpu>) {
    forall i, j :: 0 <= i < j < |q| ==> q[i].id != q[j].id
  }

  lemma {:induction false} CriticalsSplit(a: seq<Vcpu>, b: seq<Vcpu>)
    ensures Criticals(a + b) == Criticals(a) + Criticals(b)
  {
    if b == [] {
      assert a + b == a;
    } else {
      var n := |b| - 1;
      CriticalsSplit(a, b[..n]);
      assert (a + b)[..|a + b| - 1] == a + b[..n];
    }
  }

  lemma CriticalsUpdate(q: seq<Vcpu>, i: nat, v: Vcpu)
    requires i < |q|
    ensures Criticals(q[i := v]) == Criticals(q) - (if q[i].critical then 1 else 0) + (if v.critical then 1 else 0)
  {
    assert q == q[..i] + [q[i]] + q[i + 1..];
    assert q[i := v] == q[..i] + [v] + q[i + 1..];
    CriticalsSplit(q[..i] + [q[i]], q[i + 1..]);
    CriticalsSplit(q[..i] + [v], q[i + 1..]);
    CriticalsSplit(q[..i], [q[i]]);
    CriticalsSplit(q[..i], [v]);
  }

  lemma {:induction false} CriticalsSame(q: seq<Vcpu>, r: seq<Vcpu>)
    requires |q| == |r| && forall j :: 0 <= j < |q| ==> q[j].critical == r[j].critical
    ensures Criticals(q) == Criticals(r)
  {
    if q != [] { CriticalsSame(q[..|q| - 1], r[..|r| - 1]); }
  }

  lemma RotatedCriticals(q: seq<Vcpu>, n: nat)
    requires n <= |q|
    ensures Criticals(Rotated(q, n)) == Criticals(q)
  {
    assert q == q[..n] + q[n..];
    CriticalsSplit(q[..n], q[n..]);
    CriticalsSplit(q[n..], q[..n]);
  }

  /** The ids stay the same, in an order that is a rotation of the old one. */
  ghost predicate SameIds(q: seq<Vcpu>, r: seq<Vcpu>, n: nat) {
    && n <= |q| == |r|
    && forall j :: 0 <= j < |q| ==> r[j].id == Rotated(q, n)[j].id && r[j].priority == Rotated(q, n)[j].priority
  }

  function Shift(e: Event): nat {
    if e.Schedule? && e.d.Bypass? then e.d.i + 1 else 0
  }

  /** Every step keeps the bounds on priority_rem and the count of critical events, and only a bypass
      changes the order, by rotating the VCPU it serves to the end. */
  lemma StepKeepsInv(s: System, e: Event, s': System)
    requires Inv(s) && Step(s, e, s')
    ensures Inv(s') && SameIds(s.q, s'.q, Shift(e))
  {
    match e
    case FastInterrupt(i) => DeliveryKeepsInv(s, i);
    case SetRunning(i, on) => CriticalsUpdate(s.q, i, s.q[i].(running := on));
    case Schedule(d) =>
      match d
      case Bypass(i) => BypassKeepsInv(s, i, s');
      case Turn(b) => TurnKeepsInv(s, b, s');
      case Idle =>
  }

  lemma DeliveryKeepsInv(s: System, i: nat)
    requires Inv(s) && i < |s.q|
    ensures Inv(Delivered(s, i)) && SameIds(s.q, Delivered(s, i).q, 0)
  {
    CriticalsUpdate(s.q, i, s.q[i].(critical := true));
  }

  lemma TurnKeepsInv(s: System, b: nat, s': System)
    requires Inv(s) && Step(s, Schedule(Turn(b)), s')
    ensures Inv(s') && SameIds(s.q, s'.q, 0)
  {
    CriticalsSame(s.q, s'.q);
  }

  lemma BypassKeepsInv(s: System, i: nat, s': System)
    requires Inv(s) && Step(s, Schedule(Bypass(i)), s')
    ensures Inv(s') && SameIds(s.q, s'.q, i + 1)
  {
    BypassKeepsQueue(s.q, i, s'.q);
    BypassCounts(s.q, i, s'.q);
  }

  lemma BypassKeepsQueue(q: seq<Vcpu>, i: nat, q': seq<Vcpu>)
    requires IsFirstUrgent(q, i) && q' == Rotated(q[i := Served(q[i])], i + 1) && Bounded(q) && DistinctIds(q)
    ensures DistinctIds(q') && Bounded(q') && SameIds(q, q', i + 1)
  {
    ServedKeeps(q, i);
    RotatedKeeps(q, q[i := Served(q[i])], i + 1);
  }

  lemma BypassCounts(q: seq<Vcpu>, i: nat, q': seq<Vcpu>)
    requires IsFirstUrgent(q, i) && q' == Rotated(q[i := Served(q[i])], i + 1) && Bounded(q) && DistinctIds(q)
    ensures |q'| == |q| && Criticals(q') == Criticals(q) - 1
  {
    ServedKeeps(q, i);
    RotatedCriticals(q[i := Served(q[i])], i + 1);
  }

  lemma ServedKeeps(q: seq<Vcpu>, i: nat)
    requires i < |q| && q[i].critical && Bounded(q) && DistinctIds(q)
    ensures var r := q[i := Served(q[i])];
      && Bounded(r) && DistinctIds(r) && Criticals(r) == Criticals(q) - 1
      && forall j :: 0 <= j < |q| ==> r[j].id == q[j].id && r[j].priority == q[j].priority
  {
    CriticalsUpdate(q, i, Served(q[i]));
  }

  lemma RotatedAt<T>(q: seq<T>, n: nat, j: nat)
    requires n <= |q| && j < |q|
    ensures |Rotated(q, n)| == |q|
    ensures Rotated(q, n)[j] == q[if j + n < |q| then j + n else j + n - |q|]
  {
  }

  lemma RotatedKeeps(q: seq<Vcpu>, r: seq<Vcpu>, n: nat)
    requires n <= |q| == |r| && forall j :: 0 <= j < |q| ==> r[j].id == q[j].id && r[j].priority == q[j].priority
    requires DistinctIds(r) && Bounded(r)
    ensures DistinctIds(Rotated(r, n)) && Bounded(Rotated(r, n)) && SameIds(q, Rotated(r, n), n)
  {
    var r' := Rotated(r, n);
    forall i, j | 0 <= i < j < |r'| ensures r'[i].id != r'[j].id {
      RotatedAt(r, n, i);
      RotatedAt(r, n, j);
    }
    forall j | 0 <= j < |r'| ensures r'[j].priority_rem <= r'[j].priority <= HIGHEST {
      RotatedAt(r, n, j);
    }
  }

  /** In every state a run can reach, from any state where they hold. */
  lemma {:induction false} RunKeepsInv(ss: seq<System>, es: seq<Event>, k: nat)
    requires Run(ss, es) && Inv(ss[0]) && k < |ss|
    ensures Inv(ss[k]) && |ss[k].q| == |ss[0].q|
  {
    if k > 0 {
      RunKeepsInv(ss, es, k - 1);
      assert StepAt(ss, es, k - 1);
      StepKeepsInv(ss[k - 1], es[k - 1], ss[k]);
    }
  }

  /** The scheduler can always decide. */
  lemma DecisionExists(q: seq<Vcpu>) returns (d: Decision, q': seq<Vcpu>)
    ensures Decided(q, d, q')
  {
    if i :| 0 <= i < |q| && Urgent(q[i]) {
      var f := FirstUrgent(q, i);
      return Bypass(f), Rotated(q[f := Served(q[f])], f + 1);
    }
    if i :| 0 <= i < |q| && Eligible(q[i]) {
      var b := Best(q, |q|, i);
      return Turn(b), Charged(q, b);
    }
    return Idle, q;
  }

  lemma FirstUrgent(q: seq<Vcpu>, i: nat) returns (f: nat)
    requires i < |q| && Urgent(q[i])
    ensures IsFirstUrgent(q, f)
  {
    if j :| 0 <= j < i && Urgent(q[j]) { f := FirstUrgent(q, j); } else { f := i; }
  }

  /** Among the first `n` VCPUs, `i` of which is eligible, the first with the least left. */
  lemma Best(q: seq<Vcpu>, n: nat, i: nat) returns (b: nat)
    requires i < n <= |q| && Eligible(q[i])
    ensures IsBest(q[..n], b)
  {
    if exists j :: 0 <= j < n - 1 && Eligible(q[j]) {
      var j :| 0 <= j < n - 1 && Eligible(q[j]);
      b := Best(q, n - 1, j);
      if q[n - 1].running && q[n - 1].priority_rem < q[b].priority_rem { b := n - 1; }
    } else {
      b := n - 1;
    }
  }

  /** And in one way only: it is a function of the queue. */
  lemma DecisionIsUnique(q: seq<Vcpu>, d1: Decision, q1: seq<Vcpu>, d2: Decision, q2: seq<Vcpu>)
    requires Decided(q, d1, q1) && Decided(q, d2, q2)
    ensures d1 == d2 && q1 == q2
  {
    match (d1, d2) {
      case (Bypass(i), Bypass(j)) => assert !(i < j) && !(j < i);
      case (Turn(b), Turn(c)) => assert !(b < c) && !(c < b);
      case _ =>
    }
  }

  /** Nobody is picked exactly when no running VCPU is urgent or has less than 255 left. */
  lemma IdleIff(q: seq<Vcpu>, d: Decision, q': seq<Vcpu>)
    requires Decided(q, d, q')
    ensures d == Idle <==> forall j :: 0 <= j < |q| && q[j].running ==> !q[j].critical && HIGHEST <= q[j].priority_rem
    ensures d.Bypass? ==> q[d.i].running
    ensures d.Turn? ==> q[d.b].running
  {
    if d.Bypass? { assert q[d.i].running && q[d.i].critical; }
    if d.Turn? { assert Eligible(q[d.b]); }
    if d.Idle? {
      forall j | 0 <= j < |q| && q[j].running ensures !q[j].critical && HIGHEST <= q[j].priority_rem {
        assert !Urgent(q[j]) && !Eligible(q[j]);
      }
    }
  }

  /** Who is picked: the first VCPU that is running and marked; without one, of the running VCPUs with less than 255
      left, the one with the least, and of several the first. */
  lemma PickedIff(q: seq<Vcpu>, d: Decision, q': seq<Vcpu>, i: nat)
    requires Decided(q, d, q') && i < |q|
    ensures d == Bypass(i) <==>
      && q[i].running && q[i].critical && forall j :: 0 <= j < i ==> !(q[j].running && q[j].critical)
    ensures d == Turn(i) <==>
      && (forall j :: 0 <= j < |q| ==> !(q[j].running && q[j].critical)) && q[i].running && q[i].priority_rem < 255
      && (forall j :: 0 <= j < |q| && q[j].running && j != i ==>
            q[i].priority_rem < q[j].priority_rem || (q[i].priority_rem == q[j].priority_rem && i < j))
  {
    if forall j :: 0 <= j < |q| ==> !(q[j].running && q[j].critical) { assert NoneUrgent(q); }
    match d
    case Bypass(k) => assert Urgent(q[k]);
    case Turn(b) => assert Eligible(q[b]);
    case Idle => assert !Urgent(q[i]) && !Eligible(q[i]);
  }

  /** The VCPU that is picked gets the processor, and nobody has it after an idle call; a call that serves a critical
      event takes one off the count. */
  lemma PickedExecutes(s: System, d: Decision, s': System, i: nat)
    requires Inv(s) && Step(s, Schedule(d), s') && i < |s.q|
    ensures s'.executing == Some(s.q[i].id) <==> d == Bypass(i) || d == Turn(i)
    ensures s'.executing == None <==> d == Idle
    ensures s'.pending == s.pending - if d.Bypass? then 1 else 0
  {
    match d
    case Bypass(k) =>
      CriticalsUpdate(s.q, k, s.q[k].(critical := false));
      if s.q[k].id == s.q[i].id { SamePlace(s.q, s.q[k].id, k, i); }
    case Turn(b) => if s.q[b].id == s.q[i].id { SamePlace(s.q, s.q[b].id, b, i); }
    case Idle =>
  }

  // ---------------------------------------------------------------- critical latency

  function Calls(es: seq<Event>): nat {
    if es == [] then 0 else Calls(es[..|es| - 1]) + if es[|es| - 1].Schedule? then 1 else 0
  }

  /** `ps[k]` is where the VCPU `id` stands in the `k`-th state. */
  ghost predicate At(ss: seq<System>, id: nat, ps: seq<nat>) {
    |ps| == |ss| && forall k :: 0 <= k < |ss| ==> ps[k] < |ss[k].q| && ss[k].q[ps[k]].id == id
  }

  /** An urgent VCPU comes closer with each scheduler call that does not serve it, and never falls back. */
  lemma UrgentComesCloser(s: System, e: Event, s': System, i: nat, i': nat)
    requires Inv(s) && Step(s, e, s') && i < |s.q| && i' < |s'.q| && s.q[i].id == s'.q[i'].id
    requires Urgent(s.q[i]) && e != Schedule(Bypass(i))
    ensures s'.q[i'].critical
    ensures if e.Schedule? then i' < i else i' == i
  {
    StepKeepsInv(s, e, s');
    RotatedAt(s.q, Shift(e), i');
    if e.Schedule? {
      assert e.d.Bypass? && e.d.i < i;
      var r := s.q[e.d.i := Served(s.q[e.d.i])];
      RotatedAt(r, e.d.i + 1, i');
    }
  }

  /** A critical VCPU at position `i` that stays running is served within `i + 1` scheduler calls. */
  lemma {:induction false} CriticalLatency(ss: seq<System>, es: seq<Event>, id: nat, ps: seq<nat>)
    requires Run(ss, es) && Inv(ss[0]) && At(ss, id, ps)
    requires forall k :: 0 <= k < |ss| ==> ss[k].q[ps[k]].running
    requires ss[0].q[ps[0]].critical && ps[0] < Calls(es)
    ensures exists k :: 0 <= k < |es| && es[k] == Schedule(Bypass(ps[k]))
  {
    assert es[..|es|] == es;
    if forall k :: 0 <= k < |es| ==> es[k] != Schedule(Bypass(ps[k])) {
      StillWaiting(ss, es, id, ps, |es|);
    }
  }

  lemma {:induction false} StillWaiting(ss: seq<System>, es: seq<Event>, id: nat, ps: seq<nat>, n: nat)
    requires Run(ss, es) && Inv(ss[0]) && At(ss, id, ps) && n <= |es|
    requires forall k :: 0 <= k < |ss| ==> ss[k].q[ps[k]].running
    requires ss[0].q[ps[0]].critical
    requires forall k :: 0 <= k < |es| ==> es[k] != Schedule(Bypass(ps[k]))
    ensures Urgent(ss[n].q[ps[n]]) && Calls(es[..n]) + ps[n] <= ps[0]
  {
    if n > 0 {
      StillWaiting(ss, es, id, ps, n - 1);
      RunKeepsInv(ss, es, n - 1);
      assert StepAt(ss, es, n - 1);
      UrgentComesCloser(ss[n - 1], es[n - 1], ss[n], ps[n - 1], ps[n]);
      assert es[..n][..n - 1] == es[..n - 1];
    }
  }

  /** A delivery marks its VCPU, and counts one critical event unless it was marked before; to the VCPU that has the
      processor it does nothing. No other field and no other VCPU changes. */
  lemma DeliveryTakesEffect(s: System, i: nat, s': System)
    requires Step(s, FastInterrupt(i), s')
    ensures i < |s.q| == |s'.q| && s'.executing == s.executing
    ensures forall j :: 0 <= j < |s.q| && j != i ==> s'.q[j] == s.q[j]
    ensures var (v, v') := (s.q[i], s'.q[i]);
      && v'.id == v.id && v'.priority == v.priority && v'.priority_rem == v.priority_rem
      && v'.running == v.running && v'.bgjobs == v.bgjobs
      && (s.executing == Some(v.id) ==> v'.critical == v.critical && s'.pending == s.pending)
      && (s.executing != Some(v.id) ==> v'.critical && s'.pending == s.pending + if v.critical then 0 else 1)
  {
  }

  /** While a VCPU is marked, critical events are pending, and every tick reaches the round-robin scheduler. */
  lemma MarkedIsPending(s: System, i: nat)
    requires Inv(s) && i < |s.q| && s.q[i].critical
    ensures s.pending != 0
  {
    CriticalsUpdate(s.q, i, s.q[i].(critical := false));
  }

  /** A VCPU that stays running is served within `p + 1` scheduler calls after a delivery to it at position `p`, and
      gets the processor, unless it had it at the delivery. */
  lemma DeliveryLatency(ss: seq<System>, es: seq<Event>, id: nat, ps: seq<nat>, f: nat)
    requires Run(ss, es) && Inv(ss[0]) && At(ss, id, ps)
    requires f < |es| && es[f] == FastInterrupt(ps[f]) && ss[f].executing != Some(id)
    requires forall k :: f < k < |ss| ==> ss[k].q[ps[k]].running
    requires ps[f] < Calls(es[f + 1..])
    ensures exists k :: f < k < |es| && es[k] == Schedule(Bypass(ps[k])) && ss[k + 1].executing == Some(id)
  {
    RunKeepsInv(ss, es, f);
    RunKeepsInv(ss, es, f + 1);
    assert StepAt(ss, es, f);
    DeliveryTakesEffect(ss[f], ps[f], ss[f + 1]);
    SamePlace(ss[f + 1].q, id, ps[f], ps[f + 1]);
    SuffixIsRun(ss, es, f + 1);
    CriticalLatency(ss[f + 1..], es[f + 1..], id, ps[f + 1..]);
    var k :| 0 <= k < |es| - (f + 1) && es[f + 1..][k] == Schedule(Bypass(ps[f + 1..][k]));
    assert StepAt(ss, es, f + 1 + k);
    assert es[f + 1 + k] == Schedule(Bypass(ps[f + 1 + k]));
  }

  lemma SamePlace(q: seq<Vcpu>, id: nat, i: nat, j: nat)
    requires DistinctIds(q) && i < |q| && j < |q| && q[i].id == id == q[j].id
    ensures i == j
  {
    assert !(i < j) && !(j < i);
  }

  lemma SuffixIsRun(ss: seq<System>, es: seq<Event>, n: nat)
    requires Run(ss, es) && n <= |es|
    ensures Run(ss[n..], es[n..])
  {
    forall k: nat ensures StepAt(ss[n..], es[n..], k) {
      assert StepAt(ss, es, n + k);
    }
  }

  /** A decision counts one job for the VCPU it picks and none for the others, takes the mark off a VCPU it serves out
      of turn, and leaves every other mark and every state as they are. */
  lemma DecisionTakesEffect(q: seq<Vcpu>, d: Decision, q': seq<Vcpu>, j: nat)
    requires Decided(q, d, q') && DistinctIds(q) && j < |q|
    ensures |q'| == |q| && Shift(Schedule(d)) <= |q|
    ensures var (v, v') := (Rotated(q, Shift(Schedule(d)))[j], q'[j]);
      var picked := PickedId(q, d) == Some(v.id);
      && v'.id == v.id && v'.priority == v.priority && v'.running == v.running
      && v'.bgjobs == (if picked then (v.bgjobs + 1) % WORD else v.bgjobs)
      && v'.critical == (v.critical && !(picked && d.Bypass?))
      && v'.priority_rem == if !d.Turn? || !v.running then v.priority_rem
                            else if picked then v.priority else v.priority_rem - q[d.b].priority_rem
  {
    match d
    case Bypass(i) =>
      RotatedAt(q, i + 1, j);
      RotatedAt(q[i := Served(q[i])], i + 1, j);
      var o := if j + (i + 1) < |q| then j + (i + 1) else j + (i + 1) - |q|;
      if q[o].id == q[i].id { SamePlace(q, q[i].id, o, i); }
    case Turn(b) => if q[j].id == q[b].id { SamePlace(q, q[b].id, j, b); }
    case Idle =>
  }

  // ---------------------------------------------------------------- proportional share

  /** Turns taken so far, by VCPU id; bypasses are not turns. */
  type Turns = map<nat, nat>

  function Counted(s: System, e: Event, t: Turns): Turns
    requires e.Schedule? && e.d.Turn? ==> e.d.b < |s.q| && s.q[e.d.b].id in t
  {
    if e.Schedule? && e.d.Turn? then t[s.q[e.d.b].id := t[s.q[e.d.b].id] + 1] else t
  }

  /** What VCPU `v` has been charged so far. */
  function Charge(v: Vcpu, t: Turns): int
    requires v.id in t
  {
    t[v.id] * v.priority + v.priority - v.priority_rem
  }

  /** All VCPUs have been charged the same. */
  ghost predicate VirtualTime(q: seq<Vcpu>, t: Turns, now: int) {
    forall j :: 0 <= j < |q| ==> q[j].id in t && Charge(q[j], t) == now
  }

  ghost predicate AllRunning(q: seq<Vcpu>) {
    forall j :: 0 <= j < |q| ==> q[j].running
  }

  lemma StepKeepsVirtualTime(s: System, e: Event, s': System, t: Turns, now: int)
    requires Inv(s) && Step(s, e, s') && AllRunning(s.q) && VirtualTime(s.q, t, now)
    ensures VirtualTime(s'.q, Counted(s, e, t), if e.Schedule? && e.d.Turn? then now + s.q[e.d.b].priority_rem else now)
  {
    match e
    case FastInterrupt(i) =>
    case SetRunning(i, on) =>
    case Schedule(d) =>
      match d
      case Bypass(i) => BypassKeepsTime(s, i, s', t, now);
      case Turn(b) => TurnAdvancesTime(s, b, s', t, now);
      case Idle =>
  }

  lemma BypassKeepsTime(s: System, i: nat, s': System, t: Turns, now: int)
    requires Step(s, Schedule(Bypass(i)), s') && VirtualTime(s.q, t, now)
    ensures VirtualTime(s'.q, t, now)
  {
    forall j | 0 <= j < |s.q| ensures s'.q[j].id in t && Charge(s'.q[j], t) == now {
      RotatedAt(s.q[i := Served(s.q[i])], i + 1, j);
    }
  }

  lemma TurnAdvancesTime(s: System, b: nat, s': System, t: Turns, now: int)
    requires Inv(s) && Step(s, Schedule(Turn(b)), s') && AllRunning(s.q) && VirtualTime(s.q, t, now)
    ensures VirtualTime(s'.q, t[s.q[b].id := t[s.q[b].id] + 1], now + s.q[b].priority_rem)
  {
    var t' := t[s.q[b].id := t[s.q[b].id] + 1];
    forall j | 0 <= j < |s.q| ensures s'.q[j].id in t' && Charge(s'.q[j], t') == now + s.q[b].priority_rem {
      assert Charge(s.q[j], t) == now;
      if j == b {
        assert (t[s.q[b].id] + 1) * s.q[b].priority == t[s.q[b].id] * s.q[b].priority + s.q[b].priority;
      } else {
        assert s.q[j].id != s.q[b].id;
      }
    }
  }

  /** `ts[k]` counts the turns up to the `k`-th state. */
  ghost predicate Counting(ss: seq<System>, es: seq<Event>, ts: seq<Turns>)
    requires Run(ss, es)
  {
    && |ts| == |ss|
    && (forall j :: 0 <= j < |ss[0].q| ==> ss[0].q[j].id in ts[0] && ts[0][ss[0].q[j].id] == 0)
    && (forall k :: 0 <= k < |es| ==>
          && (es[k].Schedule? && es[k].d.Turn? ==> es[k].d.b < |ss[k].q| && ss[k].q[es[k].d.b].id in ts[k])
          && ts[k + 1] == Counted(ss[k], es[k], ts[k]))
  }

  /** As create_vcpu leaves it. */
  ghost predicate Created(q: seq<Vcpu>) {
    forall j :: 0 <= j < |q| ==> q[j].priority_rem == q[j].priority
  }

  lemma {:induction false} RunKeepsVirtualTime(ss: seq<System>, es: seq<Event>, ts: seq<Turns>, k: nat)
      returns (now: int)
    requires Run(ss, es) && Inv(ss[0]) && Created(ss[0].q) && Counting(ss, es, ts) && k < |ss|
    requires forall i :: 0 <= i < |ss| ==> AllRunning(ss[i].q)
    ensures VirtualTime(ss[k].q, ts[k], now)
  {
    if k == 0 {
      now := 0;
    } else {
      var before := RunKeepsVirtualTime(ss, es, ts, k - 1);
      RunKeepsInv(ss, es, k - 1);
      var e := es[k - 1];
      assert StepAt(ss, es, k - 1);
      assert ts[k - 1 + 1] == Counted(ss[k - 1], e, ts[k - 1]);
      StepKeepsVirtualTime(ss[k - 1], e, ss[k], ts[k - 1], before);
      now := if e.Schedule? && e.d.Turn? then before + ss[k - 1].q[e.d.b].priority_rem else before;
    }
  }

  /** Over every run in which all VCPUs stay running, critical events included, the turns of any two
      VCPUs weighted by their priorities never drift apart by more than one turn of either. */
  lemma ProportionalShare(ss: seq<System>, es: seq<Event>, ts: seq<Turns>, k: nat, u: nat, v: nat)
    requires Run(ss, es) && Inv(ss[0]) && Created(ss[0].q) && Counting(ss, es, ts) && k < |ss|
    requires forall i :: 0 <= i < |ss| ==> AllRunning(ss[i].q)
    requires u < |ss[k].q| && v < |ss[k].q|
    ensures ss[k].q[u].id in ts[k] && ss[k].q[v].id in ts[k]
    ensures var (x, y) := (ss[k].q[u], ss[k].q[v]);
      0 - x.priority <= ts[k][x.id] * x.priority - ts[k][y.id] * y.priority <= y.priority
  {
    var now := RunKeepsVirtualTime(ss, es, ts, k);
    RunKeepsInv(ss, es, k);
    assert Charge(ss[k].q[u], ts[k]) == now == Charge(ss[k].q[v], ts[k]);
  }
}
