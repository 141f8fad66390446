/** Message endpoints: sixteen-slot ring buffers in a table of 32, as rust/crates/drivers/src/ipc.rs keeps them. */
module Ipc {
  import opened Words

  const MAX_PAYLOAD := 256
  const CAPACITY := 16
  const MAX_ENDPOINTS := 32

  datatype Status = IpcOk | Invalid | Full | Empty | NotInitialized | InvalidEndpoint

  datatype Message = Message(sender: Word, length: Word, data: seq<Byte>)

  /** An endpoint's ring: count messages from slot head on, the next free slot at tail. */
  datatype Endpoint = Endpoint(active: bool, head: nat, tail: nat, count: nat, messages: seq<Message>)

  function EmptyMessage(): Message {
    Message(0, 0, seq(MAX_PAYLOAD, _ => 0))
  }

  function NewEndpoint(): Endpoint {
    Endpoint(false, 0, 0, 0, seq(CAPACITY, _ => EmptyMessage()))
  }

  /** The i-th slot from head on, around the ring. */
  function Slot(head: nat, i: nat): (s: nat)
    ensures s < CAPACITY
  {
    (head + i) % CAPACITY
  }

  lemma SlotIs(head: nat, i: nat)
    requires head < CAPACITY && i <= CAPACITY
    ensures Slot(head, i) == if head + i < CAPACITY then head + i else head + i - CAPACITY
  {
  }

  ghost predicate WellFormed(e: Endpoint) {
    && |e.messages| == CAPACITY
    && (forall i :: 0 <= i < CAPACITY ==> |e.messages[i].data| == MAX_PAYLOAD)
    && e.head < CAPACITY && e.count <= CAPACITY && e.tail == Slot(e.head, e.count)
  }

  /** The messages waiting, oldest first. */
  ghost function Queue(e: Endpoint): (q: seq<Message>)
    requires WellFormed(e)
    ensures |q| == e.count
  {
    seq(e.count, i requires 0 <= i < e.count => e.messages[Slot(e.head, i)])
  }

  /** Copies the payload over the front of the slot; the rest of the slot keeps its old bytes. */
  function Fill(slot: Message, sender: Word, payload: seq<Byte>): Message
    requires |slot.data| == MAX_PAYLOAD && |payload| <= MAX_PAYLOAD
  {
    Message(sender, |payload|, payload + slot.data[|payload|..])
  }

  function Push(e: Endpoint, sender: Word, payload: seq<Byte>): Endpoint
    requires WellFormed(e) && |payload| <= MAX_PAYLOAD
  {
    e.(messages := e.messages[e.tail := Fill(e.messages[e.tail], sender, payload)],
       tail := Slot(e.tail, 1), count := e.count + 1)
  }

  function Pop(e: Endpoint): Endpoint
    requires WellFormed(e) && e.count > 0
  {
    e.(head := Slot(e.head, 1), count := e.count - 1)
  }

  /** No two of the first sixteen slots coincide, and stepping on commutes with stepping from head. */
  lemma SlotsApart(head: nat, i: nat, j: nat)
    requires head < CAPACITY && i < j < CAPACITY
    ensures Slot(head, i) != Slot(head, j)
  {
    SlotIs(head, i);
    SlotIs(head, j);
  }

  lemma NextSlot(head: nat, i: nat)
    requires head < CAPACITY && i < CAPACITY
    ensures Slot(Slot(head, i), 1) == Slot(head, i + 1) == Slot(Slot(head, 1), i)
  {
    SlotIs(head, i);
    SlotIs(Slot(head, i), 1);
    SlotIs(head, i + 1);
    SlotIs(head, 1);
    SlotIs(Slot(head, 1), i);
  }

  lemma PushMeans(e: Endpoint, sender: Word, payload: seq<Byte>)
    requires WellFormed(e) && e.count < CAPACITY && |payload| <= MAX_PAYLOAD
    ensures WellFormed(Push(e, sender, payload))
    ensures Queue(Push(e, sender, payload)) == Queue(e) + [Fill(e.messages[e.tail], sender, payload)]
  {
    hide Slot;
    NextSlot(e.head, e.count);
    forall i | 0 <= i < e.count ensures Slot(e.head, i) != e.tail {
      SlotsApart(e.head, i, e.count);
    }
  }

  lemma PopMeans(e: Endpoint)
    requires WellFormed(e) && e.count > 0
    ensures WellFormed(Pop(e))
    ensures Queue(e) == [e.messages[e.head]] + Queue(Pop(e))
  {
    forall i | 0 <= i < e.count ensures Slot(Slot(e.head, 1), i) == Slot(e.head, i + 1) {
      NextSlot(e.head, i);
    }
    SlotIs(e.head, 0);
    hide Slot;
    var q, q' := Queue(e), Queue(Pop(e));
    assert q[0] == e.messages[e.head];
    assert forall i, j :: 0 <= i < e.count - 1 && j == i + 1 ==> q[j] == q'[i];
  }

  // ---------- The table ----------

  ghost predicate Ready(es: seq<Endpoint>) {
    |es| == MAX_ENDPOINTS && forall i :: 0 <= i < |es| ==> WellFormed(es[i])
  }

  predicate Addressable(es: seq<Endpoint>, endpoint: Word) {
    0 < endpoint < |es| && es[endpoint].active
  }

  /** ipc_send on the table, for a payload that fits a message. */
  function Send(es: seq<Endpoint>, endpoint: Word, sender: Word, payload: seq<Byte>): (Status, seq<Endpoint>)
    requires Ready(es) && |payload| <= MAX_PAYLOAD
  {
    if !Addressable(es, endpoint) then (InvalidEndpoint, es)
    else if es[endpoint].count == CAPACITY then (Full, es)
    else (IpcOk, es[endpoint := Push(es[endpoint], sender, payload)])
  }

  /** ipc_receive on the table. */
  function Receive(es: seq<Endpoint>, endpoint: Word): (Status, Option<Message>, seq<Endpoint>)
    requires Ready(es)
  {
    if !Addressable(es, endpoint) then (InvalidEndpoint, None, es)
    else if es[endpoint].count == 0 then (Empty, None, es)
    else (IpcOk, Some(es[endpoint].messages[es[endpoint].head]), es[endpoint := Pop(es[endpoint])])
  }

  // ---------- Endpoints as mailboxes ----------

  /** A message as its sender sent it. */
  datatype Mail = Mail(sender: Word, bytes: seq<Byte>)

  /** What the receiver finds in a message: the first length bytes, of at most 256. */
  function MailOf(m: Message): Mail
    requires |m.data| == MAX_PAYLOAD
  {
    Mail(m.sender, if m.length <= 256 then m.data[..m.length] else m.data)
  }

  /** The mail waiting at an endpoint, oldest first. */
  ghost function Box(e: Endpoint): (b: seq<Mail>)
    requires WellFormed(e)
    ensures |b| == e.count
  {
    seq(e.count, i requires 0 <= i < e.count => MailOf(Queue(e)[i]))
  }

  lemma MailSent(slot: Message, sender: Word, payload: seq<Byte>)
    requires |slot.data| == MAX_PAYLOAD && |payload| <= 256
    ensures MailOf(Fill(slot, sender, payload)) == Mail(sender, payload)
  {
  }

  /**
   ipc_send: endpoint 0, one past the table and an inactive one are refused, and so is a mailbox of
   sixteen; otherwise the mail is put behind the others, and no other endpoint changes.
   */
  lemma SendMeans(es: seq<Endpoint>, endpoint: Word, sender: Word, payload: seq<Byte>)
    requires Ready(es) && |payload| <= 256
    ensures var (status, es') := Send(es, endpoint, sender, payload);
      if endpoint == 0 || endpoint >= 32 || !es[endpoint].active then status == InvalidEndpoint && es' == es
      else if |Box(es[endpoint])| == 16 then status == Full && es' == es
      else
        && status == IpcOk && Ready(es')
        && es'[endpoint].active && Box(es'[endpoint]) == Box(es[endpoint]) + [Mail(sender, payload)]
        && forall i :: 0 <= i < 32 && i != endpoint ==> es'[i] == es[i]
  {
    if 0 < endpoint < 32 && es[endpoint].active && es[endpoint].count < CAPACITY {
      var e := es[endpoint];
      PushMeans(e, sender, payload);
      MailSent(e.messages[e.tail], sender, payload);
      hide Push;
      hide Fill;
      hide MailOf;
    }
  }

  /** ipc_receive: the same refusals, Empty for an empty mailbox, and otherwise the oldest mail, which is gone. */
  lemma ReceiveMeans(es: seq<Endpoint>, endpoint: Word)
    requires Ready(es)
    ensures var (status, m, es') := Receive(es, endpoint);
      if endpoint == 0 || endpoint >= 32 || !es[endpoint].active then status == InvalidEndpoint && m.None? && es' == es
      else if |Box(es[endpoint])| == 0 then status == Empty && m.None? && es' == es
      else
        && status == IpcOk && Ready(es')
        && m.Some? && |m.value.data| == 256 && es'[endpoint].active
        && Box(es[endpoint]) == [MailOf(m.value)] + Box(es'[endpoint])
        && forall i :: 0 <= i < 32 && i != endpoint ==> es'[i] == es[i]
  {
    if 0 < endpoint < 32 && es[endpoint].active && es[endpoint].count > 0 {
      var e := es[endpoint];
      PopMeans(e);
      assert Queue(e)[0] == e.messages[e.head];
      assert forall i, j :: 0 <= i < e.count - 1 && j == i + 1 ==> Queue(e)[j] == Queue(Pop(e))[i];
      hide MailOf;
    }
  }

  /** A new endpoint is closed and empty. */
  lemma NewIsEmpty()
    ensures WellFormed(NewEndpoint()) && !NewEndpoint().active && Box(NewEndpoint()) == []
    ensures forall m <- NewEndpoint().messages :: m.sender == 0 && m.length == 0 && forall b <- m.data :: b == 0
  {
  }

  /** The engine itself, its table updated in place. */
  class IpcEngine {
    var initialized: bool
    const endpoints: array<Endpoint>

    ghost predicate Valid()
      reads this, endpoints
    {
      Ready(endpoints[..])
    }

    constructor ()
      ensures Valid() && !initialized
      ensures forall i :: 0 <= i < MAX_ENDPOINTS ==> endpoints[i] == NewEndpoint()
    {
      initialized := false;
      endpoints := new Endpoint[MAX_ENDPOINTS](_ => NewEndpoint());
    }

    method Init() returns (r: Status)
      requires Valid()
      modifies this, endpoints
      ensures r == IpcOk && Valid() && initialized
      ensures forall i :: 0 <= i < MAX_ENDPOINTS ==> endpoints[i] == NewEndpoint()
    {
      initialized := true;
      var i := 0;
      while i < endpoints.Length
        invariant 0 <= i <= endpoints.Length == MAX_ENDPOINTS
        invariant initialized && forall j :: 0 <= j < i ==> endpoints[j] == NewEndpoint()
      {
        endpoints[i] := NewEndpoint();
        i := i + 1;
      }
      return IpcOk;
    }

    /** ipc_endpoint_create: the first inactive endpoint but number 0, or 0 when there is none. */
    method Create() returns (e: Word)
      requires Valid()
      modifies endpoints
      ensures Valid()
      ensures e == 0 ==> endpoints[..] == old(endpoints[..])
      ensures e == 0 ==> !initialized || forall i :: 1 <= i < MAX_ENDPOINTS ==> endpoints[i].active
      ensures e != 0 ==> initialized && e < MAX_ENDPOINTS && !old(endpoints[e].active)
      ensures e != 0 ==> forall i :: 1 <= i < e ==> endpoints[i].active
      ensures e != 0 ==> endpoints[..] == old(endpoints[..])[e := old(endpoints[e]).(active := true)]
    {
      if !initialized {
        return 0;
      }
      var i := 1;
      while i < endpoints.Length
        invariant 1 <= i <= MAX_ENDPOINTS == endpoints.Length
        invariant endpoints[..] == old(endpoints[..])
        invariant forall j :: 1 <= j < i ==> endpoints[j].active
      {
        if !endpoints[i].active {
          endpoints[i] := endpoints[i].(active := true);
          return i;
        }
        i := i + 1;
      }
      return 0;
    }

    /** ipc_send; data is None for a null pointer, and otherwise at least length bytes are readable there. */
    method DoSend(endpoint: Word, sender: Word, data: Option<seq<Byte>>, length: nat) returns (r: Status)
      requires Valid() && (data.Some? ==> length <= |data.value|)
      modifies endpoints
      ensures Valid()
      ensures length > MAX_PAYLOAD || (length != 0 && data.None?) ==>
        r == Invalid && endpoints[..] == old(endpoints[..])
      ensures length <= MAX_PAYLOAD && (length == 0 || data.Some?) && !initialized ==>
        r == NotInitialized && endpoints[..] == old(endpoints[..])
      ensures length <= MAX_PAYLOAD && (length == 0 || data.Some?) && initialized ==>
        var payload := if length == 0 then [] else data.value[..length];
        (r, endpoints[..]) == Send(old(endpoints[..]), endpoint, sender, payload)
    {
      if length > MAX_PAYLOAD || (length != 0 && data.None?) {
        return Invalid;
      }
      if !initialized {
        return NotInitialized;
      }
      if endpoint == 0 || endpoint >= endpoints.Length || !endpoints[endpoint].active {
        return InvalidEndpoint;
      }
      var queue := endpoints[endpoint];
      if queue.count == CAPACITY {
        return Full;
      }
      var payload := if length == 0 then [] else data.value[..length];
      PushMeans(queue, sender, payload);
      endpoints[endpoint] := Push(queue, sender, payload);
      return IpcOk;
    }

    /** ipc_receive; room says whether the caller gave somewhere to put the message, or a null pointer. */
    method DoReceive(endpoint: Word, room: bool) returns (r: Status, message: Option<Message>)
      requires Valid()
      modifies endpoints
      ensures Valid()
      ensures !room ==> r == Invalid && endpoints[..] == old(endpoints[..])
      ensures room && !initialized ==> r == NotInitialized && endpoints[..] == old(endpoints[..])
      ensures room && initialized ==> (r, message, endpoints[..]) == Receive(old(endpoints[..]), endpoint)
    {
      if !room {
        return Invalid, None;
      }
      if !initialized {
        return NotInitialized, None;
      }
      if endpoint == 0 || endpoint >= endpoints.Length || !endpoints[endpoint].active {
        return InvalidEndpoint, None;
      }
      var queue := endpoints[endpoint];
      if queue.count == 0 {
        return Empty, None;
      }
      PopMeans(queue);
      endpoints[endpoint] := Pop(queue);
      return IpcOk, Some(queue.messages[queue.head]);
    }
  }
}
