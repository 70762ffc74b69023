/** The two message rings as the C code keeps them, proved to take the steps of `Messages`. */
module MessageRings {
  import opened Words
  import opened Messages

  lemma NextSlot(s: nat, k: nat)
    ensures ((s + 1) % SLOTS + k) % SLOTS == (s + (k + 1)) % SLOTS
  {
  }

  lemma OneFurther(s: nat, k: nat, i: nat)
    requires (s + k) % SLOTS == i
    ensures (s + (k + 1)) % SLOTS == (i + 1) % SLOTS
  {
  }

  /** Fewer than five slots in use do not reach round to the free one. */
  lemma FreeSlot(s: nat, num: nat, k: nat)
    requires s < SLOTS && k < num < SLOTS
    ensures (s + k) % SLOTS != (s + num) % SLOTS
  {
  }

  /** `message_buffer_t` and `struct message_list_t`: `rows` holds the payload bytes of each slot. */
  class MessageRing {
    const room: nat  // bytes behind the header of a slot
    const sources: array<nat>
    const sizes: array<int>
    const rows: array2<Byte>
    var input: nat   // `in`
    var out: nat
    var num: nat

    ghost var contents: seq<Message>

    ghost predicate Shape()
      reads this
    {
      && sources.Length == sizes.Length == rows.Length0 == SLOTS && rows.Length1 == room
      && input < SLOTS && out < SLOTS && num <= SLOTS && (out + num) % SLOTS == input && num == |contents|
    }

    /** Slot `s` holds message `m`. */
    ghost predicate Holds(s: nat, m: Message)
      reads this, sources, sizes, rows
    {
      && s < sources.Length && s < sizes.Length && s < rows.Length0 && |m.payload| <= rows.Length1
      && sources[s] == m.source && sizes[s] == |m.payload|
      && forall i :: 0 <= i < |m.payload| ==> rows[s, i] == m.payload[i]
    }

    ghost predicate Valid()
      reads this, sources, sizes, rows
    {
      Shape() && forall k :: 0 <= k < num ==> Holds((out + k) % SLOTS, contents[k])
    }

    constructor (room: nat)
      ensures Valid() && contents == [] && this.room == room && fresh(sources) && fresh(sizes) && fresh(rows)
    {
      this.room := room;
      sources := new nat[SLOTS];
      sizes := new int[SLOTS];
      rows := new Byte[SLOTS, room];
      input, out, num, contents := 0, 0, 0, [];
    }

    /** memcpy into slot `s`. */
    method CopyIn(s: nat, data: seq<Byte>)
      requires s < rows.Length0 && |data| <= rows.Length1
      modifies rows
      ensures forall i :: 0 <= i < |data| ==> rows[s, i] == data[i]
      ensures forall t, i :: 0 <= t < rows.Length0 && t != s && 0 <= i < rows.Length1 ==> rows[t, i] == old(rows[t, i])
    {
      var i := 0;
      while i < |data|
        invariant i <= |data| && forall j :: 0 <= j < i ==> rows[s, j] == data[j]
        invariant forall t, i :: 0 <= t < rows.Length0 && t != s && 0 <= i < rows.Length1 ==>
          rows[t, i] == old(rows[t, i])
      {
        rows[s, i] := data[i];
        i := i + 1;
      }
    }

    /** The free slot at `in` gets a message and its header. */
    method Fill(m: Message)
      requires Valid() && |m.payload| <= room && num < SLOTS
      modifies sources, sizes, rows
      ensures Valid() && Holds(input, m)
    {
      CopyIn(input, m.payload);
      sizes[input] := |m.payload|;
      sources[input] := m.source;
      forall k | 0 <= k < num ensures Holds((out + k) % SLOTS, contents[k]) {
        FreeSlot(out, num, k);
        ghost var s := (out + k) % SLOTS;
        assert old(Holds(s, contents[k])) && s != input;
        assert sources[s] == old(sources[s]) && sizes[s] == old(sizes[s]);
      }
    }

    /** A size word written to the free slot at `in` shows nowhere. */
    method Spoil(size: int)
      requires Valid() && num < SLOTS
      modifies sizes
      ensures Valid()
    {
      sizes[input] := size;
      forall k | 0 <= k < num ensures Holds((out + k) % SLOTS, contents[k]) {
        FreeSlot(out, num, k);
        assert old(Holds((out + k) % SLOTS, contents[k]));
      }
    }

    /** The filled slot becomes the newest message. */
    method Push(ghost m: Message)
      requires Valid() && num < SLOTS && Holds(input, m)
      modifies this`input, this`num, this`contents
      ensures Valid() && contents == old(contents) + [m]
    {
      NextSlot(out, num);
      OneFurther(out, num, input);
      contents := contents + [m];
      num := num + 1;
      input := (input + 1) % SLOTS;
    }

    /** memcpy of the first `n` bytes of the slot at `out`. */
    method Copy(n: nat) returns (data: seq<Byte>)
      requires Valid() && 0 < num && n <= |contents[0].payload|
      ensures data == contents[0].payload[..n]
    {
      data := [];
      while |data| < n
        invariant |data| <= n && data == contents[0].payload[..|data|]
      {
        assert Holds((out + 0) % SLOTS, contents[0]);
        data := data + [rows[out, |data|]];
      }
    }

    /** The oldest message leaves. */
    method Pop()
      requires Valid() && 0 < num
      modifies this`out, this`num, this`contents
      ensures Valid() && contents == old(contents)[1..]
    {
      forall k | 0 <= k < num - 1 ensures Holds(((out + 1) % SLOTS + k) % SLOTS, contents[1..][k]) {
        NextSlot(out, k);
        assert Holds((out + (k + 1)) % SLOTS, contents[k + 1]);
      }
      NextSlot(out, num - 1);
      num := num - 1;
      out := (out + 1) % SLOTS;
      contents := contents[1..];
    }
  }

  /** A VCPU as the messaging hypercalls see it. */
  class Mailbox {
    const id: nat
    const messages: MessageRing
    var init: bool
    var irq: bool  // GUEST_INTERVM_INT in guestclt2

    constructor (id: nat)
      ensures Shows(Fresh()) && this.id == id && fresh(messages)
      ensures fresh(messages.sources) && fresh(messages.sizes) && fresh(messages.rows)
    {
      this.id := id;
      messages := new MessageRing(MESSAGE_SZ);
      init, irq := true, false;
    }

    /** The hypervisor's side of channel `c`. */
    ghost predicate Shows(c: Channel)
      reads this, messages, messages.sources, messages.sizes, messages.rows
    {
      messages.Valid() && messages.room == MESSAGE_SZ && messages.contents == c.hv && init == c.init && irq == c.irq
    }

    /** Lines 143-171 of inter-vm-comm.c; `m` is what the hypercall leaves in the guest's memory and registers. */
    method RecvMsg(ghost c: Channel) returns (v0: int, m: Message)
      requires Shows(c)
      modifies this`irq, messages`out, messages`num, messages`contents
      ensures c.hv == [] ==> v0 == EMPTY && Shows(c)
      ensures c.hv != [] ==> m == c.hv[0] && v0 == |m.payload| && Shows(c.(hv := c.hv[1..], irq := false))
    {
      m := Message(0, []);
      if messages.num == 0 {
        return EMPTY, m;
      }
      assert messages.Holds((messages.out + 0) % SLOTS, messages.contents[0]);
      v0 := messages.sizes[messages.out];
      var data := messages.Copy(v0);
      m := Message(messages.sources[messages.out], data);
      messages.Pop();
      irq := false;
    }
  }

  /** The first VCPU of the ready list with the given id, or null (get_vcpu_from_id). */
  method GetVcpuFromId(ready: seq<Mailbox>, id: nat) returns (v: Mailbox?)
    ensures v != null ==> v in ready && v.id == id
    ensures v == null ==> forall w :: w in ready ==> w.id != id
  {
    for i := 0 to |ready|
      invariant forall j :: 0 <= j < i ==> ready[j].id != id
    {
      if ready[i].id == id { return ready[i]; }
    }
    return null;
  }

  /** Lines 82-134 of inter-vm-comm.c, for the target that get_vcpu_from_id found; `urgent` says whether the call
      ends in fast_interrupt_delivery for the target. */
  method SendMsg(vcpu: Mailbox?, m: Message, ghost c: Channel) returns (v0: int, urgent: bool)
    requires vcpu != null ==> vcpu.Shows(c) && |c.hv| <= SLOTS
    modifies if vcpu == null then {}
      else {vcpu, vcpu.messages, vcpu.messages.sources, vcpu.messages.sizes, vcpu.messages.rows}
    ensures v0 == SendResult(vcpu != null, c, |m.payload|) && urgent == (0 <= v0)
    ensures vcpu != null ==> vcpu.Shows(Send(c, m))
  {
    if |m.payload| > MESSAGE_SZ { return TOO_BIG, false; }
    if vcpu == null { return VCPU_NOT_FOUND, false; }
    if vcpu.init { return VCPU_NOT_INIT, false; }
    if vcpu.messages.num == SLOTS {
      vcpu.irq := true;
      return FULL, false;
    }
    vcpu.messages.Fill(m);
    vcpu.messages.Push(m);
    vcpu.irq := true;
    return |m.payload|, true;
  }

  /** The guest's side: `message_list` of network.c. */
  class Guest {
    const list: MessageRing

    constructor ()
      ensures Shows(Fresh()) && fresh(list) && fresh(list.sources) && fresh(list.sizes) && fresh(list.rows)
    {
      list := new MessageRing(GUEST_ROOM);
    }

    ghost predicate Shows(c: Channel)
      reads list, list.sources, list.sizes, list.rows
    {
      list.Valid() && list.room == GUEST_ROOM && list.contents == c.guest
    }

    /** One round of the loop: the hypercall writes straight into the slot at `in`. */
    method FetchOne(box: Mailbox, ghost c: Channel) returns (ret: int)
      requires Shows(c) && box.Shows(c) && Inv(c) && |c.guest| < SLOTS
      requires box.messages != list
        && {box.messages.sources, box.messages.sizes, box.messages.rows} !! {list.sources, list.sizes, list.rows}
      modifies list, list.sources, list.sizes, list.rows, box`irq, box.messages`out, box.messages`num,
        box.messages`contents
      ensures Shows(Fetch(c)) && box.Shows(Fetch(c))
      ensures ret == if c.hv == [] then EMPTY else |c.hv[0].payload|
    {
      var m;
      ret, m := box.RecvMsg(c);
      if ret == EMPTY {
        list.Spoil(ret);
        return;
      }
      list.Fill(m);
      list.Push(m);
    }

    /** `irq_network`, when nothing else runs between its rounds. */
    method IrqNetwork(box: Mailbox, ghost c: Channel)
      requires Shows(c) && box.Shows(c) && Inv(c)
      requires box.messages != list
        && {box.messages.sources, box.messages.sizes, box.messages.rows} !! {list.sources, list.sizes, list.rows}
      modifies list, list.sources, list.sizes, list.rows, box`irq, box.messages`out, box.messages`num,
        box.messages`contents
      ensures Shows(Drain(c)) && box.Shows(Drain(c)) && Inv(Drain(c))
    {
      DrainKeepsInv(c);
      if list.num == SLOTS { return; }
      var ret := 1;
      ghost var d := c;
      while ret != 0 && list.num < SLOTS
        invariant Shows(d) && box.Shows(d) && Inv(d) && (if ret == 0 then d else Drain(d)) == Drain(c)
        decreases |d.hv|, ret
      {
        ret := FetchOne(box, d);
        if ret == EMPTY { return; }
        FetchKeepsInv(d);
        d := Fetch(d);
      }
    }

    /** `ReceiveMessage` once a message is there; without one and without `block` it returns 0. */
    method ReceiveMessage(bufsz: nat, ghost c: Channel) returns (size: nat, source: nat, data: seq<Byte>)
      requires Shows(c)
      modifies list`out, list`num, list`contents
      ensures Shows(Receive(c, bufsz)) && size == |data|
      ensures c.guest == [] ==> size == 0
      ensures c.guest != [] ==>
        var d := Receive(c, bufsz).delivered[|c.delivered|]; source == d.source && data == d.data
    {
      if list.num == 0 {
        return 0, 0, [];
      }
      assert list.Holds((list.out + 0) % SLOTS, list.contents[0]);
      size := list.sizes[list.out];
      if size > bufsz {
        size := bufsz;
      }
      data := list.Copy(size);
      source := list.sources[list.out];
      list.Pop();
    }
  }
}
