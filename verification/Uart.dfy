/** arch/mips/pic32mz/uart_driver.c: one UART transmitter shared by the VCPUs. */
module Uart {
  import opened Words

  type Buffer = seq<Byte>

  /** struct transfer_info; `buf` stands for the guest's buffer at buf_addr, which its owner, being blocked,
      cannot change. `pending` is `vcpu != NULL`: slot `j` belongs to the VCPU with id `j + 1`. */
  datatype Transfer = Transfer(buf: Buffer, next: nat, size: nat, pending: bool)

  /** The driver, the VCPU states it sets, the bytes given to the transmitter so far, and two histories. */
  datatype State = State(
    transfers: seq<Transfer>,
    active: int,
    irqEnabled: bool,
    blocked: seq<bool>,
    wire: seq<Byte>,
    submitted: seq<Buffer>,  // in the order of the hypercalls
    finished: seq<Buffer>    // in the order their last byte was written
  )

  function Min(a: nat, b: nat): nat { if a < b then a else b }

  function Init(n: nat): State {
    State(seq(n, _ => Transfer([], 0, 0, false)), -1, false, seq(n, _ => false), [], [], [])
  }

  /** The hypercall `send` of VCPU `j`; the transmit queue takes `room` bytes before it is full. */
  function Send(s: State, j: nat, buf: Buffer, room: nat): State
    requires j < |s.transfers| == |s.blocked|
  {
    var i := if s.active < 0 then Min(|buf|, room) else 0;
    var s1 := s.(wire := s.wire + buf[..i], submitted := s.submitted + [buf]);
    if i < |buf| then
      s1.(transfers := s.transfers[j := Transfer(buf, i, |buf|, true)],
          blocked := s.blocked[j := true],
          irqEnabled := s.irqEnabled || s.active < 0,
          active := if s.active < 0 then j else s.active)
    else s1.(finished := s.finished + [buf])
  }

  /** The first slot with a pending transfer, or -1. */
  function FirstPending(ts: seq<Transfer>, from: nat): (k: int)
    requires from <= |ts|
    ensures -1 <= k
    ensures k < 0 ==> forall j :: from <= j < |ts| ==> !ts[j].pending
    ensures 0 <= k ==> from <= k < |ts| && ts[k].pending && forall j :: from <= j < k ==> !ts[j].pending
    decreases |ts| - from
  {
    if from == |ts| then -1 else if ts[from].pending then from else FirstPending(ts, from + 1)
  }

  /** Some transfer is active, and within its buffer: so it is whenever the interrupt is on. */
  predicate Transmitting(s: State) {
    && 0 <= s.active < |s.transfers| == |s.blocked|
    && s.transfers[s.active].next <= s.transfers[s.active].size == |s.transfers[s.active].buf|
  }

  /** The transmit interrupt, when the transmit queue takes `room` more bytes. */
  function TxDone(s: State, room: nat): State
    requires Transmitting(s)
  {
    var j: nat := s.active;
    var t := s.transfers[j];
    var next := Min(t.size, t.next + room);
    var s1 := s.(wire := s.wire + t.buf[t.next..next]);
    if next < t.size then s1.(transfers := s.transfers[j := t.(next := next)])
    else
      var ts := s.transfers[j := t.(next := next, pending := false)];
      s1.(transfers := ts, blocked := s.blocked[j := false], finished := s.finished + [t.buf],
          active := FirstPending(ts, 0), irqEnabled := s.irqEnabled && 0 <= FirstPending(ts, 0))
  }

  // ---------------------------------------------------------------- what every step keeps

  function Concat(bs: seq<Buffer>): seq<Byte> {
    if bs == [] then [] else Concat(bs[..|bs| - 1]) + bs[|bs| - 1]
  }

  /** The part of the active buffer that was written. */
  function Begun(s: State): seq<Byte> {
    if 0 <= s.active < |s.transfers| && s.transfers[s.active].next <= |s.transfers[s.active].buf|
    then s.transfers[s.active].buf[..s.transfers[s.active].next] else []
  }

  function Own(t: Transfer): multiset<Buffer> {
    if t.pending then multiset{t.buf} else multiset{}
  }

  /** The buffers still to be finished. */
  function Waiting(ts: seq<Transfer>): multiset<Buffer> {
    if ts == [] then multiset{}
    else Waiting(ts[..|ts| - 1]) + Own(ts[|ts| - 1])
  }

  ghost predicate Shape(s: State) {
    && |s.transfers| == |s.blocked| && -1 <= s.active < |s.transfers|
    // a VCPU is blocked exactly while its transfer is pending, and then has bytes left
    && (forall j :: 0 <= j < |s.transfers| ==> (s.blocked[j] <==> s.transfers[j].pending))
    && (forall j :: 0 <= j < |s.transfers| && s.transfers[j].pending ==>
          s.transfers[j].next < s.transfers[j].size == |s.transfers[j].buf|)
    // only the active transfer has begun
    && (forall j :: 0 <= j < |s.transfers| && s.transfers[j].pending && j != s.active ==> s.transfers[j].next == 0)
    // a transfer is active exactly while one is pending, and exactly then the interrupt is on
    && (0 <= s.active ==> s.transfers[s.active].pending)
    && (s.active < 0 ==> forall j :: 0 <= j < |s.transfers| ==> !s.transfers[j].pending)
    && (s.irqEnabled <==> 0 <= s.active)
  }

  /** The line carries whole buffers and a beginning of the active one. */
  ghost predicate Line(s: State) {
    s.wire == Concat(s.finished) + Begun(s)
  }

  /** Every submitted buffer is finished or waiting, and only once. */
  ghost predicate Accounts(s: State) {
    multiset(s.submitted) == multiset(s.finished) + Waiting(s.transfers)
  }

  ghost predicate Inv(s: State) {
    Shape(s) && Line(s) && Accounts(s)
  }

  lemma {:induction false} WaitingSplit(a: seq<Transfer>, b: seq<Transfer>)
    ensures Waiting(a + b) == Waiting(a) + Waiting(b)
  {
    if b == [] {
      assert a + b == a;
    } else {
      var b0, t := b[..|b| - 1], b[|b| - 1];
      assert b == b0 + [t] && a + b == a + b0 + [t];
      WaitingSplit(a, b0);
      WaitingSnoc(a + b0, t);
      WaitingSnoc(b0, t);
    }
  }

  lemma WaitingSnoc(ts: seq<Transfer>, t: Transfer)
    ensures Waiting(ts + [t]) == Waiting(ts) + Own(t)
  {
    assert (ts + [t])[..|ts|] == ts;
  }

  lemma WaitingOne(t: Transfer)
    ensures Waiting([t]) == Own(t)
  {
    assert [t][..0] == [];
  }

  /** Writing one slot exchanges its contribution. */
  lemma WaitingUpdate(ts: seq<Transfer>, j: nat, t: Transfer)
    requires j < |ts|
    ensures Waiting(ts[j := t]) + Own(ts[j]) == Waiting(ts) + Own(t)
  {
    assert ts == ts[..j] + [ts[j]] + ts[j + 1..] && ts[j := t] == ts[..j] + [t] + ts[j + 1..];
    WaitingSplit(ts[..j] + [ts[j]], ts[j + 1..]);
    WaitingSplit(ts[..j] + [t], ts[j + 1..]);
    WaitingSplit(ts[..j], [ts[j]]);
    WaitingSplit(ts[..j], [t]);
    WaitingOne(t);
    WaitingOne(ts[j]);
  }

  lemma {:induction false} NothingWaiting(ts: seq<Transfer>)
    requires forall j :: 0 <= j < |ts| ==> !ts[j].pending
    ensures Waiting(ts) == multiset{}
  {
    if ts != [] { NothingWaiting(ts[..|ts| - 1]); }
  }

  lemma ConcatSnoc(bs: seq<Buffer>, b: Buffer)
    ensures Concat(bs + [b]) == Concat(bs) + b
  {
    assert (bs + [b])[..|bs|] == bs;
  }

  lemma WaitingAdds(ts: seq<Transfer>, j: nat, t: Transfer)
    requires j < |ts| && !ts[j].pending && t.pending
    ensures Waiting(ts[j := t]) == Waiting(ts) + multiset{t.buf}
  {
    WaitingUpdate(ts, j, t);
  }

  lemma WaitingDrops(ts: seq<Transfer>, j: nat, t: Transfer)
    requires j < |ts| && ts[j].pending && !t.pending
    ensures Waiting(ts) == Waiting(ts[j := t]) + multiset{ts[j].buf}
  {
    WaitingUpdate(ts, j, t);
  }

  lemma WaitingStays(ts: seq<Transfer>, j: nat, t: Transfer)
    requires j < |ts| && ts[j].pending && t.pending && t.buf == ts[j].buf
    ensures Waiting(ts[j := t]) == Waiting(ts)
  {
    WaitingUpdate(ts, j, t);
    Cancel(Waiting(ts[j := t]), Waiting(ts), Own(t));
  }

  lemma Cancel<T>(a: multiset<T>, b: multiset<T>, x: multiset<T>)
    requires a + x == b + x
    ensures a == b
  {
    assert a == a + x - x && b == b + x - x;
  }

  /** A buffer that stops waiting is finished. */
  lemma Moved(done: seq<Buffer>, b: Buffer, all: multiset<Buffer>, before: multiset<Buffer>, after: multiset<Buffer>)
    requires all == multiset(done) + before && before == after + multiset{b}
    ensures all == multiset(done + [b]) + after
  {
    assert multiset(done + [b]) == multiset(done) + multiset{b};
  }

  /** Only a running VCPU can make the hypercall. */
  lemma SendKeepsInv(s: State, j: nat, buf: Buffer, room: nat)
    requires Inv(s) && j < |s.transfers| && !s.blocked[j]
    ensures Inv(Send(s, j, buf, room))
  {
    SendKeepsShape(s, j, buf, room);
    SendKeepsLine(s, j, buf, room);
    SendKeepsAccounts(s, j, buf, room);
  }

  lemma SendKeepsShape(s: State, j: nat, buf: Buffer, room: nat)
    requires Shape(s) && j < |s.transfers| && !s.blocked[j]
    ensures Shape(Send(s, j, buf, room))
  {
  }

  lemma SendKeepsAccounts(s: State, j: nat, buf: Buffer, room: nat)
    requires Shape(s) && Accounts(s) && j < |s.transfers| && !s.blocked[j]
    ensures Accounts(Send(s, j, buf, room))
  {
    var i := if s.active < 0 then Min(|buf|, room) else 0;
    if i < |buf| { WaitingAdds(s.transfers, j, Transfer(buf, i, |buf|, true)); }
    var s' := Send(s, j, buf, room);
    assert s'.submitted == s.submitted + [buf];
    OneMoreAccount(s.submitted, s.finished, Waiting(s.transfers), buf);
  }

  lemma OneMoreAccount(all: seq<Buffer>, done: seq<Buffer>, waiting: multiset<Buffer>, buf: Buffer)
    requires multiset(all) == multiset(done) + waiting
    ensures multiset(all + [buf]) == multiset(done + [buf]) + waiting == multiset(done) + (waiting + multiset{buf})
  {
  }

  lemma SendKeepsLine(s: State, j: nat, buf: Buffer, room: nat)
    requires Shape(s) && Line(s) && j < |s.transfers| && !s.blocked[j]
    ensures Line(Send(s, j, buf, room))
  {
    var s' := Send(s, j, buf, room);
    if 0 <= s.active {
      QueuedSend(s, j, buf, room);
      QueuedLine(s, s', buf);
    } else {
      DirectSend(s, j, buf, room);
      DirectLine(s, s', buf, Min(|buf|, room));
    }
  }

  lemma QueuedLine(s: State, s': State, buf: Buffer)
    requires Line(s) && s'.wire == s.wire && Begun(s') == Begun(s)
    requires s'.finished == if |buf| == 0 then s.finished + [buf] else s.finished
    ensures Line(s')
  {
    ConcatSnoc(s.finished, buf);
  }

  lemma DirectLine(s: State, s': State, buf: Buffer, i: nat)
    requires Line(s) && i <= |buf| && s'.wire == s.wire + buf[..i] && Begun(s) == []
    requires if i < |buf| then Begun(s') == buf[..i] && s'.finished == s.finished
             else Begun(s') == [] && s'.finished == s.finished + [buf]
    ensures Line(s')
  {
    ConcatSnoc(s.finished, buf);
    assert s.wire == Concat(s.finished);
    if i == |buf| { assert buf[..i] == buf && s'.wire + [] == s'.wire; }
  }

  /** With a transfer active, a send writes nothing. */
  lemma QueuedSend(s: State, j: nat, buf: Buffer, room: nat)
    requires Shape(s) && j < |s.transfers| && !s.blocked[j] && 0 <= s.active
    ensures var s' := Send(s, j, buf, room);
      && s'.wire == s.wire && Begun(s') == Begun(s)
      && s'.finished == if |buf| == 0 then s.finished + [buf] else s.finished
  {
    assert s.active != j;
  }

  /** With none active, it writes what there is room for. */
  lemma DirectSend(s: State, j: nat, buf: Buffer, room: nat)
    requires Shape(s) && j < |s.transfers| && s.active < 0
    ensures var (s', i) := (Send(s, j, buf, room), Min(|buf|, room));
      s'.wire == s.wire + buf[..i] && Begun(s) == []
      && (if i < |buf| then Begun(s') == buf[..i] && s'.finished == s.finished
          else Begun(s') == [] && s'.finished == s.finished + [buf])
  {
  }

  lemma TxDoneKeepsInv(s: State, room: nat)
    requires Inv(s) && s.irqEnabled
    ensures Inv(TxDone(s, room))
  {
    TxDoneKeepsShape(s, room);
    TxDoneKeepsLine(s, room);
    TxDoneKeepsAccounts(s, room);
  }

  lemma TxDoneKeepsShape(s: State, room: nat)
    requires Shape(s) && s.irqEnabled
    ensures Shape(TxDone(s, room))
  {
  }

  lemma TxDoneKeepsAccounts(s: State, room: nat)
    requires Shape(s) && Accounts(s) && s.irqEnabled
    ensures Accounts(TxDone(s, room))
  {
    var s', j: nat := TxDone(s, room), s.active;
    var t := s.transfers[j];
    var t' := s'.transfers[j];
    assert s'.submitted == s.submitted && s'.transfers == s.transfers[j := t'];
    if t'.pending {
      WaitingStays(s.transfers, j, t');
    } else {
      WaitingDrops(s.transfers, j, t');
      Moved(s.finished, t.buf, multiset(s.submitted), Waiting(s.transfers), Waiting(s'.transfers));
    }
  }

  lemma Appended<T>(wire: seq<T>, done: seq<T>, buf: seq<T>, i: nat, j: nat)
    requires i <= j <= |buf| && wire == done + buf[..i]
    ensures wire + buf[i..j] == done + buf[..j]
  {
    assert buf[..i] + buf[i..j] == buf[..j];
    assert wire + buf[i..j] == done + (buf[..i] + buf[i..j]);
  }

  lemma TxDoneKeepsLine(s: State, room: nat)
    requires Shape(s) && Line(s) && s.irqEnabled
    ensures Line(TxDone(s, room))
  {
    var s', j: nat := TxDone(s, room), s.active;
    var t := s.transfers[j];
    var next := Min(t.size, t.next + room);
    Appended(s.wire, Concat(s.finished), t.buf, t.next, next);
    if next == t.size {
      ConcatSnoc(s.finished, t.buf);
      NothingBegun(s, room);
      assert t.buf[..next] == t.buf;
    }
  }

  /** The next active transfer is one that has not begun. */
  lemma NothingBegun(s: State, room: nat)
    requires Shape(s) && s.irqEnabled && s.transfers[s.active].size <= s.transfers[s.active].next + room
    ensures Begun(TxDone(s, room)) == []
  {
  }

  // ---------------------------------------------------------------- runs

  datatype Event = Hypercall(j: nat, buf: Buffer, room: nat) | Interrupt(room: nat)

  /** A blocked VCPU makes no hypercall, and a disabled interrupt does not arrive. An interrupt that found no
      transfer within its buffer could do anything. */
  ghost predicate Step(s: State, e: Event, s': State) {
    match e
    case Hypercall(j, buf, room) => j < |s.transfers| == |s.blocked| && !s.blocked[j] && s' == Send(s, j, buf, room)
    case Interrupt(room) => s.irqEnabled && (Transmitting(s) ==> s' == TxDone(s, room))
  }

  ghost predicate Run(ss: seq<State>, es: seq<Event>) {
    |ss| == |es| + 1 && forall k: nat :: StepAt(ss, es, k)
  }

  ghost predicate StepAt(ss: seq<State>, es: seq<Event>, k: nat)
    requires |ss| == |es| + 1
  {
    k < |es| ==> Step(ss[k], es[k], ss[k + 1])
  }

  lemma InitIsInv(n: nat)
    ensures Inv(Init(n))
  {
    NothingWaiting(Init(n).transfers);
  }

  /** In every reachable state the bytes on the line are whole submitted buffers, each once, and a beginning
      of the active one; and VCPUs, transfers and the interrupt agree. */
  lemma {:induction false} RunKeepsInv(ss: seq<State>, es: seq<Event>, n: nat, k: nat)
    requires Run(ss, es) && ss[0] == Init(n) && k < |ss|
    ensures Inv(ss[k])
  {
    if k == 0 {
      InitIsInv(n);
    } else {
      RunKeepsInv(ss, es, n, k - 1);
      assert StepAt(ss, es, k - 1);
      match es[k - 1]
      case Hypercall(j, buf, room) => SendKeepsInv(ss[k - 1], j, buf, room);
      case Interrupt(room) => TxDoneKeepsInv(ss[k - 1], room);
    }
  }

  /** The buffers of the hypercalls among the events, in order. */
  function Buffers(es: seq<Event>): seq<Buffer> {
    if es == [] then []
    else Buffers(es[..|es| - 1]) + if es[|es| - 1].Hypercall? then [es[|es| - 1].buf] else []
  }

  lemma StepSubmits(s: State, e: Event, s': State)
    requires Inv(s) && Step(s, e, s')
    ensures s'.submitted == s.submitted + if e.Hypercall? then [e.buf] else []
  {
  }

  lemma {:induction false} SubmittedAreBuffers(ss: seq<State>, es: seq<Event>, n: nat, k: nat)
    requires Run(ss, es) && ss[0] == Init(n) && k < |ss|
    ensures ss[k].submitted == Buffers(es[..k])
  {
    if k > 0 {
      SubmittedAreBuffers(ss, es, n, k - 1);
      RunKeepsInv(ss, es, n, k - 1);
      assert StepAt(ss, es, k - 1);
      StepSubmits(ss[k - 1], es[k - 1], ss[k]);
      BuffersSnoc(es, k);
    }
  }

  lemma BuffersSnoc(es: seq<Event>, k: nat)
    requires 1 <= k <= |es|
    ensures Buffers(es[..k]) == Buffers(es[..k - 1]) + if es[k - 1].Hypercall? then [es[k - 1].buf] else []
  {
    assert es[..k][..k - 1] == es[..k - 1];
  }

  /** Every buffer of every hypercall made so far is on the line, whole and once, or waits in a slot. */
  lemma NoBufferIsLost(ss: seq<State>, es: seq<Event>, n: nat, k: nat)
    requires Run(ss, es) && ss[0] == Init(n) && k < |ss|
    ensures multiset(Buffers(es[..k])) == multiset(ss[k].finished) + Waiting(ss[k].transfers)
    ensures ss[k].wire == Concat(ss[k].finished) + Begun(ss[k])
  {
    SubmittedAreBuffers(ss, es, n, k);
    RunKeepsInv(ss, es, n, k);
  }

  /** A hypercall writes what there is room for when no transfer is active, and nothing otherwise; its VCPU is
      blocked with the rest in its slot exactly when there is a rest. */
  lemma HypercallTakesEffect(ss: seq<State>, es: seq<Event>, n: nat, k: nat)
    requires Run(ss, es) && ss[0] == Init(n) && k < |es| && es[k].Hypercall?
    ensures var (s, s', j, buf) := (ss[k], ss[k + 1], es[k].j, es[k].buf);
      j < |s.transfers| == |s'.transfers| == |s'.blocked| == |s.blocked|
      && (forall i: nat :: i < |s.transfers| && i != j ==>
            s'.transfers[i] == s.transfers[i] && s'.blocked[i] == s.blocked[i])
      && |s.wire| <= |s'.wire|
      && var written := |s'.wire| - |s.wire|;
         written == (if 0 <= s.active then 0 else Min(|buf|, es[k].room))
         && s'.wire == s.wire + buf[..written]
         && (s'.blocked[j] <==> written < |buf|) && (s'.transfers[j].pending <==> written < |buf|)
         && (written < |buf| ==> s'.transfers[j] == Transfer(buf, written, |buf|, true) && s'.irqEnabled)
         && s'.active == if 0 <= s.active || written == |buf| then s.active else j
  {
    RunKeepsInv(ss, es, n, k);
    assert StepAt(ss, es, k);
  }

  /** An interrupt goes on with the active transfer; when that ends, its VCPU runs again, and the lowest pending
      slot is next. */
  lemma InterruptTakesEffect(ss: seq<State>, es: seq<Event>, n: nat, k: nat)
    requires Run(ss, es) && ss[0] == Init(n) && k < |es| && es[k].Interrupt?
    ensures var (s, s') := (ss[k], ss[k + 1]);
      0 <= s.active < |s.transfers| == |s'.transfers| == |s'.blocked| == |s.blocked| && s.blocked[s.active]
      && (forall i: nat :: i < |s.transfers| && i != s.active ==>
            s'.transfers[i] == s.transfers[i] && s'.blocked[i] == s.blocked[i])
      && var (t, t') := (s.transfers[s.active], s'.transfers[s.active]);
         t'.next == Min(|t.buf|, t.next + es[k].room) && t'.buf == t.buf
         && t.next <= t'.next && s'.wire == s.wire + t.buf[t.next..t'.next]
         && (t'.pending <==> t'.next < |t.buf|) && (s'.blocked[s.active] <==> t'.next < |t.buf|)
         && (t'.next < |t.buf| ==> s'.active == s.active)
         && (t'.next == |t.buf| ==> IsFirstPending(s'.transfers, s'.active))
  {
    RunKeepsInv(ss, es, n, k);
    assert StepAt(ss, es, k);
  }

  predicate IsFirstPending(ts: seq<Transfer>, k: int) {
    if 0 <= k < |ts| then ts[k].pending && forall j :: 0 <= j < k ==> !ts[j].pending
    else k == -1 && forall j :: 0 <= j < |ts| ==> !ts[j].pending
  }

  /** Bytes of pending transfers not yet written. */
  function Left(ts: seq<Transfer>): nat {
    if ts == [] then 0
    else Left(ts[..|ts| - 1]) + LeftOf(ts[|ts| - 1])
  }

  function LeftOf(t: Transfer): nat {
    if t.pending && t.next < t.size then t.size - t.next else 0
  }

  lemma {:induction false} LeftSplit(a: seq<Transfer>, b: seq<Transfer>)
    ensures Left(a + b) == Left(a) + Left(b)
  {
    if b == [] {
      assert a + b == a;
    } else {
      LeftSplit(a, b[..|b| - 1]);
      assert (a + b)[..|a + b| - 1] == a + b[..|b| - 1];
    }
  }

  lemma LeftUpdate(ts: seq<Transfer>, j: nat, t: Transfer)
    requires j < |ts|
    ensures Left(ts[j := t]) == Left(ts) - LeftOf(ts[j]) + LeftOf(t)
  {
    assert ts == ts[..j] + [ts[j]] + ts[j + 1..] && ts[j := t] == ts[..j] + [t] + ts[j + 1..];
    LeftSplit(ts[..j] + [ts[j]], ts[j + 1..]);
    LeftSplit(ts[..j] + [t], ts[j + 1..]);
    LeftSplit(ts[..j], [ts[j]]);
    LeftSplit(ts[..j], [t]);
    assert [t][..0] == [] && [ts[j]][..0] == [];
  }

  /** An interrupt writes as much of the active transfer as the queue has room for. */
  lemma InterruptMakesProgress(s: State, room: nat)
    requires Shape(s) && s.irqEnabled
    ensures Left(TxDone(s, room).transfers) + Min(room, LeftOf(s.transfers[s.active])) == Left(s.transfers)
  {
    var j: nat := s.active;
    var t := s.transfers[j];
    var next := Min(t.size, t.next + room);
    LeftUpdate(s.transfers, j, if next < t.size then t.(next := next) else t.(next := next, pending := false));
  }

  /** Interrupts alone, each with room for a byte, finish all transfers: after at most as many of them as bytes
      are left, every VCPU runs again and the line carries exactly the submitted buffers. */
  lemma InterruptsFinishAll(s: State, rooms: seq<nat>)
    requires Inv(s) && Ample(rooms) && Left(s.transfers) <= |rooms|
    ensures AllServed(Serve(s, rooms), s.submitted)
  {
    ServeEnds(s, rooms);
    ServeKeepsInv(s, rooms);
    NothingLeft(Serve(s, rooms));
  }

  lemma {:induction false} ServeEnds(s: State, rooms: seq<nat>)
    requires Inv(s) && Ample(rooms) && Left(s.transfers) <= |rooms|
    ensures !Serve(s, rooms).irqEnabled && Serve(s, rooms).submitted == s.submitted
    decreases |rooms|
  {
    if s.irqEnabled {
      var s' := FirstServed(s, rooms);
      ServeEnds(s', rooms[1..]);
    }
  }

  lemma {:induction false} ServeKeepsInv(s: State, rooms: seq<nat>)
    requires Inv(s)
    ensures Inv(Serve(s, rooms))
    decreases |rooms|
  {
    if rooms != [] && s.irqEnabled {
      TxDoneKeepsInv(s, rooms[0]);
      ServeKeepsInv(TxDone(s, rooms[0]), rooms[1..]);
    }
  }

  /** The state after the first of the interrupts. */
  lemma FirstServed(s: State, rooms: seq<nat>) returns (s': State)
    requires Inv(s) && s.irqEnabled && Ample(rooms) && Left(s.transfers) <= |rooms|
    ensures 0 < |rooms| && Serve(s, rooms) == Serve(s', rooms[1..]) && Ample(rooms[1..])
    ensures Inv(s') && s'.submitted == s.submitted && Left(s'.transfers) < Left(s.transfers)
  {
    StillLeft(s);
    s' := TxDone(s, rooms[0]);
    InterruptServes(s, rooms[0]);
    TxDoneKeepsInv(s, rooms[0]);
  }

  /** Room for a byte each time. */
  ghost predicate Ample(rooms: seq<nat>) {
    forall k :: 0 <= k < |rooms| ==> 1 <= rooms[k]
  }

  /** Nobody is blocked and the line carries exactly the submitted buffers, each whole and once. */
  ghost predicate AllServed(s: State, submitted: seq<Buffer>) {
    && Inv(s) && !s.irqEnabled && (forall j :: 0 <= j < |s.blocked| ==> !s.blocked[j])
    && s.submitted == submitted
    && s.wire == Concat(s.finished) && multiset(s.finished) == multiset(submitted)
  }

  lemma NothingLeft(s: State)
    requires Inv(s) && !s.irqEnabled
    ensures AllServed(s, s.submitted)
  {
    NothingWaiting(s.transfers);
  }

  lemma InterruptServes(s: State, room: nat)
    requires Shape(s) && s.irqEnabled && 1 <= room
    ensures Transmitting(s) && TxDone(s, room).submitted == s.submitted
    ensures Left(TxDone(s, room).transfers) < Left(s.transfers)
  {
    LeftIsPositive(s.transfers, s.active);
    InterruptMakesProgress(s, room);
  }

  lemma StillLeft(s: State)
    requires Shape(s) && s.irqEnabled
    ensures 0 < Left(s.transfers)
  {
    LeftIsPositive(s.transfers, s.active);
  }

  lemma LeftIsPositive(ts: seq<Transfer>, j: nat)
    requires j < |ts|
    ensures LeftOf(ts[j]) <= Left(ts)
  {
    LeftUpdate(ts, j, ts[j].(pending := false));
  }

  /** The state after interrupts that find the given room, as long as the interrupt is on. */
  function Serve(s: State, rooms: seq<nat>): State
    decreases |rooms|
  {
    if rooms == [] || !s.irqEnabled || !Transmitting(s) then s else Serve(TxDone(s, rooms[0]), rooms[1..])
  }
}
