/** Inter-VM messages: the hypervisor ring of a VCPU (drivers/inter-vm-comm.c) feeding the ring
    of its guest (bare-metal-apps/lib/network.c). */
module Messages {
  import opened Words


  const SLOTS := 5          // MESSAGELIST_SZ, both rings
  const MESSAGE_SZ := 256   // the hypervisor's slot
  const VCPU_NOT_FOUND := -1
  const FULL := -2
  const TOO_BIG := -3
  const EMPTY := -4
  const VCPU_NOT_INIT := -5

  const GUEST_HEADER := 8          // source_id and size
  const GUEST_MESSAGE_SZ := 255    // the guest declares one byte less than the hypervisor sends

  /** Room behind the header of a guest slot: sizeof(struct message_t), a multiple of the alignment 4. */
  const GUEST_ROOM := (GUEST_HEADER + GUEST_MESSAGE_SZ + 3) / 4 * 4 - GUEST_HEADER

  datatype Message = Message(source: nat, payload: seq<Byte>)

  /** What ReceiveMessage gave to the guest: at most `bufsz` bytes of the message `of`. */
  datatype Delivery = Delivery(of: Message, bufsz: nat, source: nat, data: seq<Byte>)

  /** The messages of one VCPU: rings oldest first, `irq` its virtual interrupt, and two histories. */
  datatype Channel = Channel(
    init: bool,              // the VCPU did not start yet
    hv: seq<Message>,
    irq: bool,
    guest: seq<Message>,
    accepted: seq<Message>,
    delivered: seq<Delivery>
  )

  /** `intervm_send_msg` once the target is known. */
  function Send(c: Channel, m: Message): Channel {
    if |m.payload| > MESSAGE_SZ || c.init then c
    else if |c.hv| == SLOTS then c.(irq := true)
    else c.(hv := c.hv + [m], irq := true, accepted := c.accepted + [m])
  }

  /** What the sender finds in v0. */
  function SendResult(found: bool, c: Channel, size: nat): int {
    if size > MESSAGE_SZ then TOO_BIG
    else if !found then VCPU_NOT_FOUND
    else if c.init then VCPU_NOT_INIT
    else if |c.hv| == SLOTS then FULL
    else size
  }

  /** One round of the loop of `irq_network`: a receive hypercall and, unless there was nothing, a guest slot. */
  function Fetch(c: Channel): Channel {
    if |c.guest| >= SLOTS || c.hv == [] then c
    else c.(hv := c.hv[1..], guest := c.guest + [c.hv[0]], irq := false)
  }

  /** There is a message, and room for it in the guest's ring. */
  predicate Takes(c: Channel) { |c.guest| < SLOTS && c.hv != [] }

  /** The whole of `irq_network`: it stops at a full guest ring, an empty hypervisor ring,
      or behind a message without payload, whose size it takes for a failure. */
  function Drain(c: Channel): Channel
    decreases |c.hv|
  {
    if |c.guest| >= SLOTS || c.hv == [] then c
    else if c.hv[0].payload == [] then Fetch(c)
    else Drain(Fetch(c))
  }

  function Cut(payload: seq<Byte>, bufsz: nat): seq<Byte> {
    if |payload| > bufsz then payload[..bufsz] else payload
  }

  /** `ReceiveMessage` with a message waiting; without one it returns 0 or keeps spinning. */
  function Receive(c: Channel, bufsz: nat): Channel {
    if c.guest == [] then c
    else
      var m := c.guest[0];
      c.(guest := c.guest[1..], delivered := c.delivered + [Delivery(m, bufsz, m.source, Cut(m.payload, bufsz))])
  }

  // ---------------------------------------------------------------- end to end

  function Originals(ds: seq<Delivery>): (ms: seq<Message>)
    ensures |ms| == |ds|
  {
    seq(|ds|, k requires 0 <= k < |ds| => ds[k].of)
  }

  ghost predicate Inv(c: Channel) {
    && |c.hv| <= SLOTS && |c.guest| <= SLOTS
    && (forall k :: 0 <= k < |c.hv| ==> |c.hv[k].payload| <= MESSAGE_SZ)
    && (forall k :: 0 <= k < |c.guest| ==> |c.guest[k].payload| <= MESSAGE_SZ)
    // what was delivered, then the guest's ring, then the hypervisor's, is what was accepted
    && Originals(c.delivered) + c.guest + c.hv == c.accepted
    && (forall k :: 0 <= k < |c.delivered| ==> Faithful(c.delivered[k]))
  }

  /** A delivery names the sender and carries the message up to the size of the receiver's buffer. */
  ghost predicate Faithful(d: Delivery) {
    && d.source == d.of.source && d.data <= d.of.payload
    && |d.data| == if |d.of.payload| <= d.bufsz then |d.of.payload| else d.bufsz
  }

  lemma SendKeepsInv(c: Channel, m: Message)
    requires Inv(c)
    ensures Inv(Send(c, m))
    ensures SendResult(true, c, |m.payload|) < 0 ==>
      var c' := Send(c, m); c'.hv == c.hv && c'.guest == c.guest && c'.accepted == c.accepted
    ensures SendResult(true, c, |m.payload|) >= 0 ==> Send(c, m).accepted == c.accepted + [m]
  {
  }

  /** Which answer a send gets. */
  lemma SendAnswersIff(found: bool, c: Channel, size: nat)
    ensures var (r, fits, started) := (SendResult(found, c, size), size <= MESSAGE_SZ, !c.init);
      && (r == TOO_BIG <==> !fits) && (r == VCPU_NOT_FOUND <==> fits && !found)
      && (r == VCPU_NOT_INIT <==> fits && found && !started)
      && (r == FULL <==> fits && found && started && |c.hv| == SLOTS)
      && (r >= 0 <==> fits && found && started && |c.hv| != SLOTS) && (r >= 0 ==> r == size)
  {
  }

  /** A send answered with a size or with FULL leaves the interrupt due; any other changes nothing at all. */
  lemma SendRaises(c: Channel, m: Message)
    ensures var (c', r) := (Send(c, m), SendResult(true, c, |m.payload|));
      && (r >= 0 || r == FULL ==> c'.irq) && (r < 0 && r != FULL ==> c' == c)
      && c'.init == c.init && c'.guest == c.guest && c'.delivered == c.delivered
  {
  }

  lemma FetchKeepsInv(c: Channel)
    requires Inv(c)
    ensures Inv(Fetch(c)) && Fetch(c).accepted == c.accepted && Fetch(c).delivered == c.delivered
    ensures |Fetch(c).guest| == |c.guest| + if Takes(c) then 1 else 0
    ensures Fetch(c).init == c.init && Fetch(c).irq == (c.irq && !Takes(c))
  {
    if |c.guest| < SLOTS && c.hv != [] {
      assert c.hv == [c.hv[0]] + c.hv[1..];
      assert Originals(c.delivered) + (c.guest + [c.hv[0]]) + c.hv[1..] == Originals(c.delivered) + c.guest + c.hv;
    }
  }

  lemma ReceiveKeepsInv(c: Channel, bufsz: nat)
    requires Inv(c)
    ensures Inv(Receive(c, bufsz)) && Receive(c, bufsz).accepted == c.accepted
    ensures var (c', n) := (Receive(c, bufsz), |c.delivered|);
      && c'.init == c.init && c'.irq == c.irq && c'.hv == c.hv && c.delivered <= c'.delivered
      && (if c.guest == [] then |c'.delivered| == n else |c'.delivered| == n + 1 && c'.delivered[n].bufsz == bufsz)
  {
    if c.guest != [] {
      var c' := Receive(c, bufsz);
      assert Originals(c'.delivered) == Originals(c.delivered) + [c.guest[0]];
      assert c.guest == [c.guest[0]] + c.guest[1..];
      assert Originals(c'.delivered) + c'.guest + c.hv == Originals(c.delivered) + c.guest + c.hv;
    }
  }

  /** The VCPUs by id. */
  type System = map<nat, Channel>

  datatype Event =
    | Boot(id: nat)                                // the VCPU runs for the first time
    | SendTo(target: nat, m: Message)
    | FetchOne(id: nat)                            // other VMs may run between two rounds of irq_network
    | ReceiveInto(id: nat, bufsz: nat)

  function Step(s: System, e: Event): System {
    match e
    case Boot(id) => if id in s then s[id := s[id].(init := false)] else s
    case SendTo(t, m) => if t in s then s[t := Send(s[t], m)] else s
    case FetchOne(id) => if id in s then s[id := Fetch(s[id])] else s
    case ReceiveInto(id, bufsz) => if id in s then s[id := Receive(s[id], bufsz)] else s
  }

  function Run(s: System, es: seq<Event>): System {
    if es == [] then s else Step(Run(s, es[..|es| - 1]), es[|es| - 1])
  }

  /** The sends to `id` that were answered with a size, in order. */
  function Accepted(s: System, es: seq<Event>, id: nat): seq<Message> {
    if es == [] then []
    else
      var (es0, e) := (es[..|es| - 1], es[|es| - 1]);
      Accepted(s, es0, id) +
        if e.SendTo? && e.target == id && id in Run(s, es0) && 0 <= SendResult(true, Run(s, es0)[id], |e.m.payload|)
        then [e.m] else []
  }

  function Fresh(): Channel { Channel(true, [], false, [], [], []) }

  ghost predicate AllFresh(s: System) {
    forall id :: id in s ==> s[id] == Fresh()
  }

  /** End to end, for every VCPU and over every interleaving of sends, rounds of irq_network and receives:
      the deliveries followed by both rings are the accepted messages, in order, none lost and none twice;
      each delivery names its sender and is cut to the receiver's buffer only. */
  lemma {:induction false} EndToEndFifo(s: System, es: seq<Event>, id: nat)
    requires AllFresh(s) && id in s
    ensures Run(s, es).Keys == s.Keys
    ensures var c := Run(s, es)[id];
      && Originals(c.delivered) + c.guest + c.hv == Accepted(s, es, id)
      && (forall k :: 0 <= k < |c.delivered| ==> Faithful(c.delivered[k]))
      && |c.guest| <= SLOTS && |c.hv| <= SLOTS
  {
    RunKeepsInv(s, es, id);
  }

  lemma {:induction false} RunKeepsInv(s: System, es: seq<Event>, id: nat)
    requires AllFresh(s) && id in s
    ensures Run(s, es).Keys == s.Keys
    ensures Inv(Run(s, es)[id]) && Run(s, es)[id].accepted == Accepted(s, es, id)
  {
    if es != [] {
      var es0, e := es[..|es| - 1], es[|es| - 1];
      RunKeepsInv(s, es0, id);
      StepKeepsInv(Run(s, es0), e, id);
    }
  }

  lemma StepKeepsInv(s: System, e: Event, id: nat)
    requires id in s && Inv(s[id])
    ensures Step(s, e).Keys == s.Keys && Inv(Step(s, e)[id])
    ensures Step(s, e)[id].accepted == s[id].accepted +
      if e.SendTo? && e.target == id && 0 <= SendResult(true, s[id], |e.m.payload|) then [e.m] else []
  {
    var c := s[id];
    match e
    case Boot(_) =>
    case SendTo(_, m) => SendKeepsInv(c, m);
    case FetchOne(_) => FetchKeepsInv(c);
    case ReceiveInto(_, bufsz) => ReceiveKeepsInv(c, bufsz);
  }

  // ---------------------------------------------------------------- when the interrupt is due

  /** Event `k` is a send to `id` that was answered with a size or with FULL. */
  predicate Raises(s: System, es: seq<Event>, k: nat, id: nat)
    requires k < |es|
  {
    es[k].SendTo? && es[k].target == id && id in Run(s, es[..k])
    && var r := SendResult(true, Run(s, es[..k])[id], |es[k].m.payload|); r >= 0 || r == FULL
  }

  /** Event `k` is a fetch that takes a message of `id`. */
  predicate Clears(s: System, es: seq<Event>, k: nat, id: nat)
    requires k < |es|
  {
    es[k] == FetchOne(id) && id in Run(s, es[..k]) && Takes(Run(s, es[..k])[id])
  }

  /** Such a send came after the last such fetch. */
  ghost predicate Due(s: System, es: seq<Event>, id: nat) {
    exists k: nat :: k < |es| && Raises(s, es, k, id) && NotClearedSince(s, es, k, id)
  }

  ghost predicate NotClearedSince(s: System, es: seq<Event>, k: nat, id: nat)
    requires k < |es|
  {
    forall j: nat :: k < j < |es| ==> !Clears(s, es, j, id)
  }

  /** Over every run, the interrupt of a VCPU is due exactly when a send answered with a size or with FULL came
      after the last fetch that took a message. */
  lemma {:induction false} InterruptDueIff(s: System, es: seq<Event>, id: nat)
    requires AllFresh(s) && id in s
    ensures id in Run(s, es) && (Run(s, es)[id].irq <==> Due(s, es, id))
  {
    RunKeepsInv(s, es, id);
    if es != [] {
      var es0, n := es[..|es| - 1], |es| - 1;
      InterruptDueIff(s, es0, id);
      RunKeepsInv(s, es0, id);
      StepSetsInterrupt(s, es, n, id);
      DueExtends(s, es, n, id);
    }
  }

  lemma StepSetsInterrupt(s: System, es: seq<Event>, n: nat, id: nat)
    requires |es| == n + 1 && id in s && id in Run(s, es[..n]) && id in Run(s, es) && Inv(Run(s, es[..n])[id])
    ensures Run(s, es)[id].irq == (Raises(s, es, n, id) || (Run(s, es[..n])[id].irq && !Clears(s, es, n, id)))
  {
    var c := Run(s, es[..n])[id];
    assert Run(s, es) == Step(Run(s, es[..n]), es[n]);
    match es[n]
    case Boot(_) =>
    case SendTo(_, m) => SendRaises(c, m);
    case FetchOne(_) => FetchKeepsInv(c);
    case ReceiveInto(_, bufsz) => ReceiveKeepsInv(c, bufsz);
  }

  lemma DueExtends(s: System, es: seq<Event>, n: nat, id: nat)
    requires |es| == n + 1
    ensures Due(s, es, id) <==> Raises(s, es, n, id) || (Due(s, es[..n], id) && !Clears(s, es, n, id))
  {
    var es0 := es[..n];
    forall k: nat | k < n
      ensures Raises(s, es, k, id) == Raises(s, es0, k, id) && Clears(s, es, k, id) == Clears(s, es0, k, id)
    {
      assert es0[..k] == es[..k];
    }
    if Raises(s, es, n, id) { assert NotClearedSince(s, es, n, id); }
    forall k: nat | k < n
      ensures NotClearedSince(s, es, k, id) <==> NotClearedSince(s, es0, k, id) && !Clears(s, es, n, id)
    {
    }
  }

  /** A VCPU has not started exactly while it was never booted. */
  lemma {:induction false} StartedIff(s: System, es: seq<Event>, id: nat)
    requires AllFresh(s) && id in s
    ensures id in Run(s, es) && (Run(s, es)[id].init <==> Boot(id) !in es)
  {
    RunKeepsInv(s, es, id);
    if es != [] {
      var es0, e := es[..|es| - 1], es[|es| - 1];
      StartedIff(s, es0, id);
      RunKeepsInv(s, es0, id);
      assert es == es0 + [e];
      BootStarts(Run(s, es0), e, id);
    }
  }

  lemma BootStarts(s: System, e: Event, id: nat)
    requires id in s && Inv(s[id])
    ensures id in Step(s, e) && Step(s, e)[id].init == (s[id].init && e != Boot(id))
  {
    match e
    case Boot(_) =>
    case SendTo(_, m) => SendRaises(s[id], m);
    case FetchOne(_) => FetchKeepsInv(s[id]);
    case ReceiveInto(_, bufsz) => ReceiveKeepsInv(s[id], bufsz);
  }

  // ---------------------------------------------------------------- the guest's interrupt handler

  /** irq_network is a sequence of rounds, and where it stops. */
  lemma {:induction false} DrainStops(c: Channel) returns (rounds: nat)
    ensures Drain(c) == Rounds(c, rounds) && rounds <= |c.hv|
    ensures Drain(c).hv == [] || |Drain(c).guest| >= SLOTS
      || (Drain(c).guest != [] && Drain(c).guest[|Drain(c).guest| - 1].payload == [])
    decreases |c.hv|
  {
    if |c.guest| >= SLOTS || c.hv == [] {
      rounds := 0;
    } else if c.hv[0].payload == [] {
      rounds := 1;
      assert Rounds(c, 1) == Rounds(Fetch(c), 0);
    } else {
      var more := DrainStops(Fetch(c));
      rounds := more + 1;
    }
  }

  lemma {:induction false} DrainKeepsInv(c: Channel)
    requires Inv(c)
    ensures Inv(Drain(c)) && Drain(c).accepted == c.accepted && Drain(c).delivered == c.delivered
    decreases |c.hv|
  {
    FetchKeepsInv(c);
    if |c.guest| < SLOTS && c.hv != [] && c.hv[0].payload != [] { DrainKeepsInv(Fetch(c)); }
  }

  function Rounds(c: Channel, n: nat): Channel
    decreases n
  {
    if n == 0 then c else Rounds(Fetch(c), n - 1)
  }

  function SendTimes(c: Channel, m: Message, n: nat): Channel
    decreases n
  {
    if n == 0 then c else SendTimes(Send(c, m), m, n - 1)
  }

  function ReceiveTimes(c: Channel, bufsz: nat, n: nat): Channel
    decreases n
  {
    if n == 0 then c else ReceiveTimes(Receive(c, bufsz), bufsz, n - 1)
  }

  lemma {:induction false} FillsHypervisorRing(c: Channel, m: Message, n: nat)
    requires !c.init && |m.payload| <= MESSAGE_SZ && |c.hv| + n <= SLOTS
    ensures var c' := SendTimes(c, m, n);
      c'.hv == c.hv + seq(n, _ => m) && c'.guest == c.guest && !c'.init
    decreases n
  {
    if n > 0 {
      FillsHypervisorRing(Send(c, m), m, n - 1);
      assert c.hv + [m] + seq(n - 1, _ => m) == c.hv + seq(n, _ => m);
    } else {
      assert c.hv + seq(n, _ => m) == c.hv;
    }
  }

  /** Messages with payload are fetched until the guest's ring is full. */
  lemma {:induction false} DrainFillsGuestRing(c: Channel)
    requires (forall k :: 0 <= k < |c.hv| ==> c.hv[k].payload != []) && |c.guest| <= SLOTS
    ensures var n := if |c.hv| <= SLOTS - |c.guest| then |c.hv| else SLOTS - |c.guest|;
      && Drain(c).guest == c.guest + c.hv[..n] && Drain(c).hv == c.hv[n..] && Drain(c).init == c.init
      && Drain(c).irq == (if n == 0 then c.irq else false)
    decreases |c.hv|
  {
    if |c.guest| < SLOTS && c.hv != [] {
      DrainFillsGuestRing(Fetch(c));
    }
  }

  lemma {:induction false} ReceivesEmptyGuestRing(c: Channel, bufsz: nat, n: nat)
    requires n == |c.guest|
    ensures var c' := ReceiveTimes(c, bufsz, n); c'.guest == [] && c'.hv == c.hv && c'.irq == c.irq
    decreases n
  {
    if n > 0 { ReceivesEmptyGuestRing(Receive(c, bufsz), bufsz, n - 1); }
  }

  /** The handler leaves no message without an interrupt that is due exactly when there is none to fetch, or it
      cannot fetch and the interrupt was due before, or it has room for all of them and none but the last is
      without payload: the first fetch clears the interrupt, whatever the handler then leaves behind. */
  lemma {:induction false} DrainLeavesNoneIff(c: Channel)
    requires |c.guest| <= SLOTS
    ensures Drain(c).hv == [] || Drain(c).irq <==>
      || c.hv == []
      || (|c.guest| == SLOTS && c.irq)
      || (|c.guest| < SLOTS && |c.hv| <= SLOTS - |c.guest| && forall k :: 0 <= k < |c.hv| - 1 ==> c.hv[k].payload != [])
    decreases |c.hv|
  {
    if |c.guest| < SLOTS && c.hv != [] && c.hv[0].payload != [] {
      var d := Fetch(c);
      DrainLeavesNoneIff(d);
      assert forall k :: 0 <= k < |d.hv| ==> d.hv[k] == c.hv[k + 1];
      assert forall k :: 1 <= k < |c.hv| ==> c.hv[k] == d.hv[k - 1];
    }
  }

  /** Stopping at a full guest ring after the interrupt was cleared can leave a message behind: here the guest
      has taken everything its handler fetched, one message waits in the hypervisor, and no interrupt is due. */
  lemma HandlerCanLeaveAMessage(m: Message, bufsz: nat)
    requires 1 <= |m.payload| <= MESSAGE_SZ
    ensures var c := ReceiveTimes(Drain(SendTimes(Drain(Send(Fresh().(init := false), m)), m, 5)), bufsz, 5);
      c.hv == [m] && c.guest == [] && !c.irq
  {
    var c0 := Send(Fresh().(init := false), m);
    DrainFillsGuestRing(c0);
    FillsHypervisorRing(Drain(c0), m, 5);
    var c2 := SendTimes(Drain(c0), m, 5);
    assert forall k :: 0 <= k < |c2.hv| ==> c2.hv[k] == m;
    DrainFillsGuestRing(c2);
    ReceivesEmptyGuestRing(Drain(c2), bufsz, 5);
  }
}
