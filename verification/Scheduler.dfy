/** sys/kernel/scheduler.c: the loops over the ready queue, proved to take the decisions of `Sharing`. */
module Scheduler {
  import opened Wrappers
  import opened Words
  import opened Queue
  import opened Sharing

  /** vcpu_t, as far as the scheduler reads and writes it. */
  class VirtualCpu {
    const id: nat
    var priority: nat
    var priority_rem: nat
    var critical: bool
    var running: bool
    var bgjobs: nat

    /** As create_vcpu leaves it. */
    constructor (id: nat, priority: nat)
      ensures Fields() == Vcpu(id, priority, priority, false, true, 0)
    {
      this.id := id;
      this.priority := priority;
      priority_rem := priority;
      critical, running, bgjobs := false, true, 0;
    }

    ghost function Fields(): Vcpu
      reads this
    {
      Vcpu(id, priority, priority_rem, critical, running, bgjobs)
    }
  }

  ghost function Snapshot(order: seq<VirtualCpu>): (q: seq<Vcpu>)
    reads order
    ensures |q| == |order|
  {
    seq(|order|, i requires 0 <= i < |order| reads order => order[i].Fields())
  }

  ghost predicate DistinctOrder(order: seq<VirtualCpu>) {
    forall i, j :: 0 <= i < j < |order| ==> order[i].id != order[j].id
  }

  class Scheduler {
    const ready: Ring<VirtualCpu?>
    var pending: nat
    var tickCount: nat
    var executing: VirtualCpu?
    const ticksBeforeScheduling: nat

    ghost var order: seq<VirtualCpu>  // what the ready queue holds

    ghost predicate Valid()
      reads this, ready, ready.data
    {
      && ready.Valid() && |order| == |ready.contents| && |order| < WORD
      && (forall i :: 0 <= i < |order| ==> ready.contents[i] == order[i])
      && DistinctOrder(order)
      && (executing != null ==> executing in order) && 1 <= ticksBeforeScheduling
    }

    ghost function State(): System
      reads this, order
    {
      System(Snapshot(order), pending, if executing == null then None else Some(executing.id))
    }

    constructor (vmachines: nat, ticks: nat)
      requires 1 <= ticks
      ensures Valid() && order == [] && pending == 0 && tickCount == 0 && executing == null
    {
      ready := new Ring(vmachines);
      pending, tickCount, executing := 0, 0, null;
      ticksBeforeScheduling := ticks;
      order := [];
    }

    /** create_vm's last step: a new VCPU joins the queue, unless it is full. */
    method Join(vcpu: VirtualCpu) returns (failed: bool)
      requires Valid() && |order| + 1 < WORD && forall i :: 0 <= i < |order| ==> order[i].id != vcpu.id
      modifies ready, ready.data, this`order
      ensures Valid() && failed == (old(|order|) == ready.Capacity())
      ensures order == if failed then old(order) else old(order) + [vcpu]
    {
      failed := ready.AddTail(vcpu);
      if !failed { order := order + [vcpu]; }
    }

    /** Lines 67-71 and 90-96: the head of the queue goes to its tail. */
    method Next() returns (vcpu: VirtualCpu)
      requires Valid() && order != []
      modifies ready, ready.data, this`order
      ensures Valid() && order == Rotated(old(order), 1) && vcpu == old(order)[0]
    {
      var head, failed := ready.Rotate();
      vcpu := head.value;
      order := order[1..] + [order[0]];
    }

    /** The VCPU at the head, the `i`-th of the queue `was`, goes to the tail. */
    method Look(ghost was: seq<VirtualCpu>, ghost q: seq<Vcpu>, ghost i: nat) returns (v: VirtualCpu)
      requires Valid() && i < |was| && order == Rotated(was, i) && Snapshot(was) == q
      modifies ready, ready.data, this`order
      ensures Valid() && order == Rotated(was, i + 1) && Snapshot(was) == q
      ensures v == was[i] && v.Fields() == q[i]
    {
      v := Next();
      RotatedOnce(was, i);
    }

    /** Lines 63-85: one turn of the queue, cut short by an urgent VCPU. */
    method Scan() returns (urgent: bool, vcpu: VirtualCpu?, ghost at: nat)
      requires Valid()
      modifies ready, ready.data, this`order
      ensures Valid() && Snapshot(old(order)) == old(Snapshot(order))
      ensures ScanFinds(old(Snapshot(order)), urgent, vcpu != null, at)
      ensures vcpu != null ==> at < |old(order)| && vcpu == old(order)[at]
      ensures urgent ==> vcpu != null
      ensures order == if urgent && at < |old(order)| then Rotated(old(order), at + 1) else old(order)
    {
      ghost var was, q := order, Snapshot(order);
      var k := ready.Count();
      urgent, vcpu, at := false, null, 0;
      var highestp: nat, i: nat := HIGHEST, 0;
      while i < k
        invariant !urgent && Valid() && i <= k == |was| && order == Rotated(was, i) && Snapshot(was) == q
        invariant ScannedTo(q, i, vcpu != null, at, highestp) && (vcpu != null ==> vcpu == was[at])
      {
        var v := Look(was, q, i);
        if v.critical && v.running {
          ScanStops(q, i, vcpu != null, at, highestp);
          urgent, vcpu, at := true, v, i;
          break;
        }
        ScanStep(q, i, vcpu != null, at, highestp);
        if highestp > v.priority_rem && v.running {
          highestp := v.priority_rem;
          vcpu, at := v, i;
        }
        i := i + 1;
      }
      if !urgent { ScanEnds(q, vcpu != null, at, highestp); }
    }

    method SetPriorityRem(v: VirtualCpu, rem: nat, ghost all: seq<VirtualCpu>, ghost i: nat)
      requires DistinctOrder(all) && i < |all| && all[i] == v
      modifies v`priority_rem
      ensures Snapshot(all) == old(Snapshot(all))[i := old(v.Fields()).(priority_rem := rem)]
    {
      v.priority_rem := rem;
    }

    /** Lines 76-77. */
    method Serve(v: VirtualCpu, ghost all: seq<VirtualCpu>, ghost i: nat)
      requires DistinctOrder(all) && i < |all| && all[i] == v
      modifies v`critical, v`bgjobs
      ensures Snapshot(all) == old(Snapshot(all))[i := Served(old(v.Fields()))]
    {
      v.critical := false;
      v.bgjobs := (v.bgjobs + 1) % WORD;
    }

    /** Lines 103-104. */
    method StartOver(v: VirtualCpu, ghost all: seq<VirtualCpu>, ghost i: nat)
      requires DistinctOrder(all) && i < |all| && all[i] == v
      modifies v`priority_rem, v`bgjobs
      ensures Snapshot(all) == old(Snapshot(all))[i := Bumped(old(v.Fields()).(priority_rem := old(v.priority)))]
    {
      v.priority_rem := v.priority;
      v.bgjobs := (v.bgjobs + 1) % WORD;
    }

    /** Lines 89-100: another turn of the queue, in which the other running VCPUs come nearer. */
    method ComeNearer(aux: VirtualCpu, ghost at: nat)
      requires Valid() && at < |order| && aux == order[at] && IsBest(Snapshot(order), at)
      modifies ready, ready.data, this`order, order
      ensures Valid() && order == old(order)
      ensures Snapshot(order) == Nearer(old(Snapshot(order)), at, |order|)
    {
      ghost var was, q := order, Snapshot(order);
      var k := ready.Count();
      var i := 0;
      if k > 0 { NearerStep(q, at, 0); }
      while i < k
        invariant Valid() && i <= k == |was| && order == Rotated(was, i)
        invariant Snapshot(was) == Nearer(q, at, i)
      {
        Visit(aux, was, q, at, i);
        i := i + 1;
      }
    }

    /** One round of that loop. */
    method Visit(aux: VirtualCpu, ghost all: seq<VirtualCpu>, ghost q: seq<Vcpu>, ghost at: nat, ghost i: nat)
      requires Valid() && DistinctOrder(all) && i < |all| && at < |all| == |q| && all[at] == aux
        && order == Rotated(all, i)
      requires IsBest(q, at) && Snapshot(all) == Nearer(q, at, i)
      modifies ready, ready.data, this`order, all
      ensures Valid() && order == Rotated(all, i + 1) && Snapshot(all) == Nearer(q, at, i + 1)
    {
      var v := Next();
      RotatedOnce(all, i);
      NearerStep(q, at, i);
      assert v.Fields() == Snapshot(all)[i] && aux.Fields() == Snapshot(all)[at];
      if v != aux && v.running {
        SetPriorityRem(v, v.priority_rem - aux.priority_rem, all, i);
      }
    }

    /** `round_robin_scheduler`. */
    method RoundRobin() returns (picked: VirtualCpu?, ghost d: Decision)
      requires Valid()
      modifies ready, ready.data, this`order, this`pending, order
      ensures Valid() && Decided(old(Snapshot(order)), d, Snapshot(order))
      ensures pending == if d.Bypass? then (old(pending) - 1) % WORD else old(pending)
      ensures match d
        case Bypass(i) => picked == old(order)[i] && order == Rotated(old(order), i + 1)
        case Turn(b) => picked == old(order)[b] && order == old(order)
        case Idle => picked == null && order == old(order)
      ensures picked != null ==> picked in order
      ensures (if picked == null then None else Some(picked.id)) == PickedId(old(Snapshot(order)), d)
    {
      ghost var was, q := order, Snapshot(order);
      var urgent: bool;
      ghost var at: nat;
      urgent, picked, at := Scan();
      d := if urgent then Bypass(at) else if picked != null then Turn(at) else Idle;
      if urgent {
        ServeUrgent(picked, was, at);
      } else if picked != null {
        TakeTurn(picked, at);
      }
      FoundIsDecided(q, urgent, picked != null, at, Snapshot(order));
    }

    /** Lines 76-79, when the scan stopped behind the urgent VCPU. */
    method ServeUrgent(vcpu: VirtualCpu, ghost all: seq<VirtualCpu>, ghost at: nat)
      requires Valid() && DistinctOrder(all) && at < |all| && all[at] == vcpu && order == Rotated(all, at + 1)
      modifies this`pending, vcpu`critical, vcpu`bgjobs
      ensures Valid() && order == old(order) && pending == (old(pending) - 1) % WORD
      ensures Snapshot(order) == Rotated(old(Snapshot(all))[at := Served(old(vcpu.Fields()))], at + 1)
    {
      Serve(vcpu, all, at);
      pending := (pending - 1) % WORD;
      SnapshotRotated(all, at + 1);
    }

    /** Lines 88-105, when the scan found `vcpu` to be the best. */
    method TakeTurn(vcpu: VirtualCpu, ghost at: nat)
      requires Valid() && at < |order| && vcpu == order[at] && IsBest(Snapshot(order), at)
      modifies ready, ready.data, this`order, order
      ensures Valid() && order == old(order)
      ensures Snapshot(order) == Charged(old(Snapshot(order)), at)
    {
      ghost var q := Snapshot(order);
      ComeNearer(vcpu, at);
      NearerThenStartOver(q, at);
      assert vcpu.Fields() == Snapshot(order)[at];
      StartOver(vcpu, order, at);
    }

    lemma SnapshotRotated(s: seq<VirtualCpu>, n: nat)
      requires n <= |s|
      ensures Snapshot(Rotated(s, n)) == Rotated(Snapshot(s), n)
    {
    }

    /** `fast_interrupt_delivery`. */
    method FastInterruptDelivery(target: VirtualCpu, ghost i: nat)
      requires Valid() && i < |order| && order[i] == target
      modifies this`pending, target`critical
      ensures Valid() && order == old(order)
      ensures State() == Delivered(old(State()), i)
    {
      if executing != target && !target.critical {
        target.critical := true;
        pending := pending + 1;
      }
      assert State().q == Delivered(old(State()), i).q;
    }

    /** `run_scheduler`: decides anew at the end of a quantum, on a critical event, or when the VCPU
        that has the processor was blocked. */
    method RunScheduler() returns (ghost d: Decision)
      requires Valid()
      modifies this, ready, ready.data, order
      ensures Valid() && tickCount == (old(tickCount) + 1) % WORD
      ensures if old(tickCount % ticksBeforeScheduling == 0 || pending != 0
        || (executing != null && !executing.running))
              then Step(old(State()), Schedule(d), State())
              else State() == old(State())
    {
      d := Idle;
      if tickCount % ticksBeforeScheduling == 0 || pending != 0 || (executing != null && !executing.running) {
        d := Decide();
      }
      tickCount := (tickCount + 1) % WORD;
    }

    /** Lines 148-153. */
    method Decide() returns (ghost d: Decision)
      requires Valid()
      modifies ready, ready.data, this`order, this`pending, this`executing, order
      ensures Valid() && Step(old(State()), Schedule(d), State())
    {
      ghost var s := State();
      var aux;
      aux, d := RoundRobin();
      ghost var q := Snapshot(order);
      if aux != executing {
        executing := aux;
      }
      assert Snapshot(order) == q;
      DecisionIsStep(s, d, State());
    }

    lemma RotatedOnce<T>(s: seq<T>, i: nat)
      requires i < |s|
      ensures Rotated(s, i)[0] == s[i] && Rotated(Rotated(s, i), 1) == Rotated(s, i + 1)
    {
    }
  }
}
