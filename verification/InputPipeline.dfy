/**
 Keyboard interrupts feed an IPC endpoint that the shell drains. Interrupts and receives interleave
 freely; each is one step, because the shell receives with interrupts off.
 */
module InputPipeline {
  import opened Words
  import opened Ipc
  import Keyboard

  /** The two bytes publish_key sends: a uint16 in memory order. */
  function Encode(key: nat): (b: seq<Byte>)
    requires key < 0x1_0000
    ensures |b| == 2
  {
    [key % 256, key / 256]
  }

  /** shell_poll_input's check and decoding of a message; None is a failed assertion. */
  function Decode(m: Message): Option<nat>
    requires |m.data| == MAX_PAYLOAD
  {
    if m.sender != 0 || (m.length != 1 && m.length != 2) then None
    else Some(if m.length == 2 then m.data[0] + m.data[1] as int * 256 else m.data[0])
  }

  /** The machine: driver state, message table, every scancode so far and every key the shell handled. */
  datatype System = System(keyboard: Keyboard.State, endpoint: Word, table: seq<Endpoint>,
                           history: seq<Byte>, handled: seq<nat>)

  datatype Step = Irq(scancode: Byte) | Poll

  function Publish(s: System, key: Option<nat>): Outcome<seq<Endpoint>>
    requires Ready(s.table) && (key.Some? ==> key.value < 0x1_0000)
  {
    match key
    case None => Returned(s.table)
    case Some(k) =>
      if s.endpoint == 0 then Panicked
      else
        var (status, table) := Send(s.table, s.endpoint, 0, Encode(k));
        if status == IpcOk then Returned(table) else Panicked
  }

  lemma KeyFits(k: Keyboard.State, sc: Byte)
    ensures Keyboard.Handle(k, sc).1.Some? ==> Keyboard.Handle(k, sc).1.value < 0x1_0000
  {
    hide Keyboard.Character;
    hide Keyboard.Pressed;
  }

  function Next(s: System, step: Step): Outcome<System>
    requires Ready(s.table)
  {
    match step
    case Irq(sc) =>
      KeyFits(s.keyboard, sc);
      var (keyboard, key) := Keyboard.Handle(s.keyboard, sc);
      (match Publish(s, key)
       case Panicked => Panicked
       case Returned(table) => Returned(s.(keyboard := keyboard, table := table, history := s.history + [sc])))
    case Poll =>
      match Receive(s.table, s.endpoint)
      case (Empty, _, _) => Returned(s)
      case (IpcOk, Some(m), table) =>
        (match Decode(m)
         case None => Panicked
         case Some(k) => Returned(s.(table := table, handled := s.handled + [k])))
      case _ => Panicked
  }

  /** The keys still waiting in a queue of well-formed messages. */
  ghost function Waiting(q: seq<Message>): seq<nat>
    requires forall m <- q :: |m.data| == MAX_PAYLOAD && Decode(m).Some?
  {
    seq(|q|, i requires 0 <= i < |q| => Decode(q[i]).value)
  }

  /** Nothing is lost, reordered or invented, and other endpoints are as they were in others. */
  ghost predicate Consistent(s: System, others: seq<Endpoint>)
    ensures Consistent(s, others) ==> Ready(s.table)
  {
    && Ready(s.table) && Addressable(s.table, s.endpoint)
    && s.keyboard == Keyboard.After(s.history)
    && var q := Queue(s.table[s.endpoint]);
    && (forall m <- q :: |m.data| == MAX_PAYLOAD && Decode(m).Some?)
    && Keyboard.Keys(s.history) == s.handled + Waiting(q)
    && |others| == |s.table|
    && (forall i :: 0 <= i < |others| && i != s.endpoint ==> s.table[i] == others[i])
  }

  lemma SentDecodes(slot: Message, key: nat)
    requires |slot.data| == MAX_PAYLOAD && key < 0x1_0000
    ensures Decode(Fill(slot, 0, Encode(key))) == Some(key)
  {
  }

  /** publish_key sends the key's two bytes in memory order, low byte first; the sender is the kernel, 0. */
  lemma EncodeIsLittle(key: nat)
    requires key < 0x1_0000
    ensures |Encode(key)| == 2 && Encode(key)[0] as int + 256 * Encode(key)[1] as int == key
  {
  }

  /** The shell takes one byte, or two with the low one first, from sender 0 only. */
  lemma DecodeMeans(m: Message)
    requires |m.data| == MAX_PAYLOAD
    ensures Decode(m) ==
      if m.sender != 0 then None
      else if m.length == 1 then Some(m.data[0])
      else if m.length == 2 then Some(m.data[0] as int + 256 * m.data[1] as int)
      else None
  {
  }

  lemma WaitingCons(q: seq<Message>, m: Message, rest: seq<Message>)
    requires q == [m] + rest
    requires forall m <- q :: |m.data| == MAX_PAYLOAD && Decode(m).Some?
    ensures |m.data| == MAX_PAYLOAD && Decode(m).Some?
    ensures forall m <- rest :: |m.data| == MAX_PAYLOAD && Decode(m).Some?
    ensures Waiting(q) == [Decode(m).value] + Waiting(rest)
  {
    hide Decode;
    assert m == q[0];
    assert forall m <- rest :: m in q;
  }

  /** A receive never panics. */
  lemma PollStep(s: System, others: seq<Endpoint>)
    requires Consistent(s, others)
    ensures Next(s, Poll).Returned? && Consistent(Next(s, Poll).value, others)
  {
    hide Decode;
    var e := s.table[s.endpoint];
    if e.count > 0 {
      PopMeans(e);
      WaitingCons(Queue(e), e.messages[e.head], Queue(Pop(e)));
    }
  }

  /** Each receive takes one message, and handles no key only when there is none. */
  lemma PollTakesOne(s: System, others: seq<Endpoint>)
    requires Consistent(s, others)
    ensures Next(s, Poll).Returned?
    ensures var t := Next(s, Poll).value;
      if s.table[s.endpoint].count == 0 then t == s
      else t.table[s.endpoint].count == s.table[s.endpoint].count - 1 && |t.handled| == |s.handled| + 1
  {
    hide Decode;
    PollStep(s, others);
  }

  lemma KeysSnoc(h: seq<Byte>, sc: Byte)
    ensures Keyboard.After(h + [sc]) == Keyboard.Handle(Keyboard.After(h), sc).0
    ensures Keyboard.Keys(h + [sc]) ==
      Keyboard.Keys(h) + match Keyboard.Handle(Keyboard.After(h), sc).1 case None => [] case Some(k) => [k]
  {
    assert (h + [sc])[..|h|] == h;
  }

  /** An interrupt panics exactly when it has a key to publish and sixteen are already waiting. */
  lemma IrqStep(s: System, others: seq<Endpoint>, sc: Byte)
    requires Consistent(s, others)
    ensures Next(s, Irq(sc)).Panicked? <==>
      Keyboard.Handle(s.keyboard, sc).1.Some? && |Queue(s.table[s.endpoint])| == CAPACITY
    ensures Next(s, Irq(sc)).Returned? ==> Consistent(Next(s, Irq(sc)).value, others)
  {
    hide Keyboard.Handle;
    hide Encode;
    hide Fill;
    KeysSnoc(s.history, sc);
    KeyFits(s.keyboard, sc);
    var e := s.table[s.endpoint];
    var key := Keyboard.Handle(s.keyboard, sc).1;
    if key.Some? && e.count < CAPACITY {
      PushMeans(e, 0, Encode(key.value));
      SentDecodes(e.messages[e.tail], key.value);
      var q, q' := Queue(e), Queue(Push(e, 0, Encode(key.value)));
      assert Waiting(q') == Waiting(q) + [key.value];
    }
  }

  lemma StepConsistent(s: System, others: seq<Endpoint>, step: Step)
    requires Consistent(s, others) && Next(s, step).Returned?
    ensures Consistent(Next(s, step).value, others)
  {
    match step
    case Irq(sc) => IrqStep(s, others, sc);
    case Poll => PollStep(s, others);
  }

  lemma IrqHandlesNone(s: System, sc: Byte)
    requires Ready(s.table) && Next(s, Irq(sc)).Returned?
    ensures Next(s, Irq(sc)).value.handled == s.handled
  {
    hide Keyboard.Handle;
  }

  /** The mail a key becomes: its two bytes, low one first, from sender 0. */
  function KeyMail(key: Option<nat>): seq<Mail> {
    match key
    case None => []
    case Some(k) => [Mail(0, [k % 256, k / 256 % 256])]
  }

  lemma PublishMails(s: System, key: Option<nat>)
    requires Ready(s.table) && Addressable(s.table, s.endpoint) && (key.Some? ==> key.value < 0x1_0000)
    requires Publish(s, key).Returned?
    ensures Ready(Publish(s, key).value)
    ensures Box(Publish(s, key).value[s.endpoint]) == Box(s.table[s.endpoint]) + KeyMail(key)
  {
    if key.Some? {
      assert Encode(key.value) == [key.value % 256, key.value / 256 % 256];
      SendMeans(s.table, s.endpoint, 0, Encode(key.value));
      hide Encode;
      hide Send;
    }
    hide Box;
  }

  /** An interrupt puts its key behind the mail of the keyboard's endpoint. */
  lemma IrqMails(s: System, others: seq<Endpoint>, sc: Byte)
    requires Consistent(s, others) && Next(s, Irq(sc)).Returned?
    ensures var t, key := Next(s, Irq(sc)).value, Keyboard.Handle(Keyboard.After(s.history), sc).1;
      && Ready(t.table) && t.handled == s.handled
      && Box(t.table[s.endpoint]) == Box(s.table[s.endpoint]) + KeyMail(key)
  {
    hide Keyboard.Handle;
    hide Publish;
    hide Box;
    hide KeyMail;
    KeyFits(s.keyboard, sc);
    PublishMails(s, Keyboard.Handle(s.keyboard, sc).1);
  }

  /** A receive hands on the oldest mail, if there is any. */
  lemma PollMails(s: System, others: seq<Endpoint>)
    requires Consistent(s, others)
    ensures Next(s, Poll).Returned?
    ensures var t, box := Next(s, Poll).value, Box(s.table[s.endpoint]);
      && Ready(t.table)
      && if box == [] then t == s
         else box == [box[0]] + Box(t.table[s.endpoint]) && |t.handled| == |s.handled| + 1
  {
    PollTakesOne(s, others);
    ReceiveMeans(s.table, s.endpoint);
    hide Decode;
    hide Box;
  }

  ghost function Run(s: System, others: seq<Endpoint>, steps: seq<Step>): Outcome<System>
    requires Consistent(s, others)
    decreases |steps|
  {
    if steps == [] then Returned(s)
    else
      match Next(s, steps[0])
      case Panicked => Panicked
      case Returned(s1) => StepConsistent(s, others, steps[0]); Run(s1, others, steps[1..])
  }

  /** The scancodes of a schedule. */
  function Scancodes(steps: seq<Step>): seq<Byte> {
    if steps == [] then []
    else (if steps[0].Irq? then [steps[0].scancode] else []) + Scancodes(steps[1..])
  }

  lemma NextHistory(s: System, step: Step)
    requires Ready(s.table) && Next(s, step).Returned?
    ensures var t := Next(s, step).value;
      && t.endpoint == s.endpoint && s.handled <= t.handled
      && t.history == s.history + (if step.Irq? then [step.scancode] else [])
  {
  }

  lemma {:induction false} RunKeepsConsistent(s: System, others: seq<Endpoint>, steps: seq<Step>)
    requires Consistent(s, others) && Run(s, others, steps).Returned?
    ensures Consistent(Run(s, others, steps).value, others)
    decreases |steps|
  {
    hide Next;
    hide Consistent;
    if steps != [] {
      StepConsistent(s, others, steps[0]);
      RunKeepsConsistent(Next(s, steps[0]).value, others, steps[1..]);
    }
  }

  lemma {:induction false} RunHistory(s: System, others: seq<Endpoint>, steps: seq<Step>)
    requires Consistent(s, others) && Run(s, others, steps).Returned?
    ensures Run(s, others, steps).value.history == s.history + Scancodes(steps)
    ensures s.handled <= Run(s, others, steps).value.handled
    decreases |steps|
  {
    hide Next;
    hide Consistent;
    if steps != [] {
      StepConsistent(s, others, steps[0]);
      NextHistory(s, steps[0]);
      var t := Next(s, steps[0]).value;
      RunHistory(t, others, steps[1..]);
      var now := if steps[0].Irq? then [steps[0].scancode] else [];
      assert s.history + now + Scancodes(steps[1..]) == s.history + (now + Scancodes(steps[1..]));
    }
  }

  /**
   For every interleaving that does not panic, the keys handled followed by the keys still queued are
   the keys the scancodes spell, and every other endpoint is untouched.
   */
  lemma RunConserves(s: System, others: seq<Endpoint>, steps: seq<Step>)
    requires Consistent(s, others) && Run(s, others, steps).Returned?
    ensures var t := Run(s, others, steps).value;
      && Consistent(t, others)
      && Keyboard.Keys(s.history + Scancodes(steps)) == t.handled + Waiting(Queue(t.table[t.endpoint]))
      && Keyboard.After(s.history + Scancodes(steps)) == t.keyboard
  {
    RunKeepsConsistent(s, others, steps);
    RunHistory(s, others, steps);
  }

  // ---------- When a schedule panics ----------

  /** Whether a scancode publishes a key, after the scancodes h. */
  predicate Publishes(h: seq<Byte>, sc: Byte) {
    Keyboard.Handle(Keyboard.After(h), sc).1.Some?
  }

  /** How many keys wait after a schedule, if n wait before it: each key adds one, each receive takes one. */
  function Level(h: seq<Byte>, n: nat, steps: seq<Step>): nat
    decreases |steps|
  {
    if steps == [] then n
    else
      match steps[0]
      case Irq(sc) => Level(h + [sc], if Publishes(h, sc) then n + 1 else n, steps[1..])
      case Poll => Level(h, if n == 0 then 0 else n - 1, steps[1..])
  }

  /** Step i of a schedule is an interrupt that publishes a key while sixteen keys wait. */
  ghost predicate OverflowsAt(h: seq<Byte>, n: nat, steps: seq<Step>, i: nat) {
    && i < |steps| && steps[i].Irq?
    && Publishes(h + Scancodes(steps[..i]), steps[i].scancode)
    && Level(h, n, steps[..i]) == CAPACITY
  }

  lemma OverflowsFirst(h: seq<Byte>, n: nat, steps: seq<Step>)
    requires steps != []
    ensures OverflowsAt(h, n, steps, 0) <==>
      steps[0].Irq? && Publishes(h, steps[0].scancode) && n == CAPACITY
  {
    hide Publishes;
    assert steps[..0] == [] && h + [] == h;
  }

  lemma OverflowsLater(h: seq<Byte>, n: nat, steps: seq<Step>, h': seq<Byte>, n': nat, rest: seq<Step>, i: nat, j: nat)
    requires steps != [] && rest == steps[1..] && j == i + 1
    requires match steps[0]
      case Irq(sc) => h' == h + [sc] && n' == if Publishes(h, sc) then n + 1 else n
      case Poll => h' == h && n' == if n == 0 then 0 else n - 1
    ensures OverflowsAt(h, n, steps, j) <==> OverflowsAt(h', n', rest, i)
  {
    hide Publishes;
    if j < |steps| {
      assert steps[..j][1..] == rest[..i];
      assert h + Scancodes(steps[..j]) == h' + Scancodes(rest[..i]);
    }
  }

  lemma QueueLength(s: System, others: seq<Endpoint>)
    requires Consistent(s, others)
    ensures |Keyboard.Keys(s.history)| == |s.handled| + |Queue(s.table[s.endpoint])|
  {
    hide Decode;
  }

  /** One step moves the number of waiting keys as Level says. */
  lemma NextLevel(s: System, others: seq<Endpoint>, step: Step)
    requires Consistent(s, others) && Next(s, step).Returned?
    ensures var t := Next(s, step).value;
      && Consistent(t, others) && t.endpoint == s.endpoint
      && var n := |Queue(s.table[s.endpoint])|;
      |Queue(t.table[s.endpoint])| == match step
        case Irq(sc) => (if Publishes(s.history, sc) then n + 1 else n)
        case Poll => if n == 0 then 0 else n - 1
  {
    StepConsistent(s, others, step);
    NextHistory(s, step);
    var t := Next(s, step).value;
    match step
    case Irq(sc) =>
      KeysSnoc(s.history, sc);
      QueueLength(s, others);
      QueueLength(t, others);
      IrqHandlesNone(s, sc);
    case Poll =>
      PollTakesOne(s, others);
  }

  lemma OverflowMovesOn(h: seq<Byte>, n: nat, steps: seq<Step>, h': seq<Byte>, n': nat, rest: seq<Step>)
    requires !OverflowsAt(h, n, steps, 0)
    requires forall i: nat, j: nat | j == i + 1 :: OverflowsAt(h, n, steps, j) <==> OverflowsAt(h', n', rest, i)
    ensures (exists i: nat :: OverflowsAt(h, n, steps, i)) <==> (exists i: nat :: OverflowsAt(h', n', rest, i))
  {
    hide OverflowsAt;
    if i: nat :| OverflowsAt(h, n, steps, i) { assert OverflowsAt(h', n', rest, i - 1); }
    if i: nat :| OverflowsAt(h', n', rest, i) { assert OverflowsAt(h, n, steps, i + 1); }
  }

  lemma StepPanicsIff(s: System, others: seq<Endpoint>, step: Step)
    requires Consistent(s, others)
    ensures Next(s, step).Panicked? <==>
      step.Irq? && Publishes(s.history, step.scancode) && |Queue(s.table[s.endpoint])| == CAPACITY
  {
    match step
    case Irq(sc) => IrqStep(s, others, sc);
    case Poll => PollStep(s, others);
  }

  /**
   A schedule panics exactly when some interrupt in it publishes a key while sixteen keys are waiting,
   counted from the scancodes and the receives alone.
   */
  lemma {:induction false} RunPanicsIff(s: System, others: seq<Endpoint>, steps: seq<Step>)
    requires Consistent(s, others)
    ensures Run(s, others, steps).Panicked? <==>
      exists i: nat :: OverflowsAt(s.history, |Queue(s.table[s.endpoint])|, steps, i)
    decreases |steps|
  {
    hide Next;
    hide Publishes;
    var h, n := s.history, |Queue(s.table[s.endpoint])|;
    if steps != [] {
      OverflowsFirst(h, n, steps);
      StepPanicsIff(s, others, steps[0]);
      if Next(s, steps[0]).Returned? {
        var t, rest := Next(s, steps[0]).value, steps[1..];
        NextLevel(s, others, steps[0]);
        NextHistory(s, steps[0]);
        var h', n' := t.history, |Queue(t.table[t.endpoint])|;
        RunPanicsIff(t, others, rest);
        hide Consistent;
        forall i: nat, j: nat | j == i + 1
          ensures OverflowsAt(h, n, steps, j) <==> OverflowsAt(h', n', rest, i)
        {
          OverflowsLater(h, n, steps, h', n', rest, i, j);
        }
        OverflowMovesOn(h, n, steps, h', n', rest);
      } else {
        assert OverflowsAt(h, n, steps, 0);
      }
    }
  }

  /** A freshly created endpoint is where every such run can start. */
  lemma FreshIsConsistent(table: seq<Endpoint>, endpoint: Word)
    requires Ready(table) && Addressable(table, endpoint) && table[endpoint].count == 0
    ensures Consistent(System(Keyboard.Boot(), endpoint, table, [], []), table)
  {
  }

  // ---------- The driver and the shell loop ----------

  lemma EitherShift(mods: bv8)
    ensures mods & (Keyboard.MOD_LSHIFT | Keyboard.MOD_RSHIFT) != 0 <==>
      mods & Keyboard.MOD_LSHIFT != 0 || mods & Keyboard.MOD_RSHIFT != 0
  {
  }

  class Driver {
    var modifierState: bv8
    var extendedPrefix: bool
    var endpoint: Word
    const engine: IpcEngine
    /** Ghost history: the scancodes delivered and the keys the shell has handled. */
    ghost var history: seq<Byte>
    ghost var handled: seq<nat>

    ghost function Now(): System
      reads this, engine, engine.endpoints
    {
      System(Keyboard.State(modifierState, extendedPrefix), endpoint, engine.endpoints[..], history, handled)
    }

    /** The messages waiting at the keyboard's endpoint. */
    ghost function Pending(): nat
      reads this, engine, engine.endpoints
    {
      if endpoint < engine.endpoints.Length then engine.endpoints[endpoint].count else 0
    }

    ghost predicate Valid(others: seq<Endpoint>)
      reads this, engine, engine.endpoints
    {
      engine.initialized && Consistent(Now(), others)
    }

    constructor (engine: IpcEngine, endpoint: Word)
      requires engine.initialized && engine.Valid() && Addressable(engine.endpoints[..], endpoint)
      requires engine.endpoints[endpoint].count == 0
      ensures this.engine == engine && Valid(engine.endpoints[..])
    {
      modifierState, extendedPrefix := 0, false;
      this.endpoint, this.engine := endpoint, engine;
      history, handled := [], [];
      new;
      FreshIsConsistent(engine.endpoints[..], endpoint);
    }

    /** publish_key. */
    method PublishKey(key: nat) returns (r: Outcome<()>)
      requires engine.initialized && engine.Valid() && key < 0x1_0000
      modifies engine.endpoints
      ensures engine.Valid()
      ensures Publish(old(Now()), Some(key)) == if r.Panicked? then Panicked else Returned(engine.endpoints[..])
      ensures r.Panicked? ==> engine.endpoints[..] == old(engine.endpoints[..])
    {
      if endpoint == 0 {
        return Panicked;
      }
      var bytes := Encode(key);
      assert bytes[..2] == bytes;
      var status := engine.DoSend(endpoint, 0, Some(bytes), 2);
      return if status == IpcOk then Returned(()) else Panicked;
    }

    /** update_modifiers. */
    method UpdateModifiers(scancode: Byte)
      modifies this`modifierState
      ensures modifierState == Keyboard.Pressed(old(modifierState), scancode)
    {
      match scancode {
        case 0x2A => modifierState := modifierState | Keyboard.MOD_LSHIFT;
        case 0x36 => modifierState := modifierState | Keyboard.MOD_RSHIFT;
        case 0x1D => modifierState := modifierState | Keyboard.MOD_LCTRL;
        case 0x38 => modifierState := modifierState | Keyboard.MOD_LALT;
        case 0x3A => modifierState := modifierState ^ Keyboard.MOD_CAPSLOCK;
        case _ =>
      }
    }

    /** clear_modifiers. */
    method ClearModifiers(scancode: Byte)
      modifies this`modifierState
      ensures modifierState == Keyboard.Released(old(modifierState), scancode)
    {
      match scancode {
        case 0xAA => modifierState := modifierState & !Keyboard.MOD_LSHIFT;
        case 0xB6 => modifierState := modifierState & !Keyboard.MOD_RSHIFT;
        case 0x9D => modifierState := modifierState & !Keyboard.MOD_LCTRL;
        case 0xB8 => modifierState := modifierState & !Keyboard.MOD_LALT;
        case _ =>
      }
    }

    /** The two switches for a scancode behind 0xE0: releases, then arrows and right-hand modifiers. */
    method ExtendedScancode(scancode: Byte) returns (key: Option<nat>)
      modifies this`modifierState
      ensures modifierState == Keyboard.ExtendedMods(old(modifierState), scancode)
      ensures key == if scancode < Keyboard.BREAK then Keyboard.ExtendedKey(scancode) else None
    {
      key := None;
      if scancode >= 0x80 {
        match scancode {
          case 0x9D => modifierState := modifierState & !Keyboard.MOD_RCTRL;
          case 0xB8 => modifierState := modifierState & !Keyboard.MOD_RALT;
          case _ =>
        }
      } else {
        match scancode {
          case 0x48 => key := Some(Keyboard.KEY_UP);
          case 0x50 => key := Some(Keyboard.KEY_DOWN);
          case 0x4B => key := Some(Keyboard.KEY_LEFT);
          case 0x4D => key := Some(Keyboard.KEY_RIGHT);
          case 0x1D => modifierState := modifierState | Keyboard.MOD_RCTRL;
          case 0x38 => modifierState := modifierState | Keyboard.MOD_RALT;
          case _ =>
        }
      }
    }

    /** The body of keyboard_handler up to publish_key, which is the last step of every path that has a key. */
    method ReadScancode(scancode: Byte) returns (key: Option<nat>)
      modifies this`modifierState, this`extendedPrefix
      ensures (Keyboard.State(modifierState, extendedPrefix), key)
        == Keyboard.Handle(Keyboard.State(old(modifierState), old(extendedPrefix)), scancode)
    {
      hide Keyboard.Pressed;
      hide Keyboard.Released;
      hide Keyboard.ExtendedMods;
      hide Keyboard.ExtendedKey;
      if scancode == 0x00 || scancode == 0xE1 {
        return None;
      }
      if scancode == Keyboard.SC_EXTENDED {
        extendedPrefix := true;
        return None;
      }
      if extendedPrefix {
        extendedPrefix := false;
        key := ExtendedScancode(scancode);
        return;
      }
      if scancode >= 0x80 {
        ClearModifiers(scancode);
        return None;
      }
      UpdateModifiers(scancode);
      var shift := modifierState & (Keyboard.MOD_LSHIFT | Keyboard.MOD_RSHIFT) != 0;
      EitherShift(modifierState);
      if Keyboard.IsLetter(scancode) && modifierState & Keyboard.MOD_CAPSLOCK != 0 {
        shift := !shift;
      }
      var ascii := if shift then Keyboard.Shifted(scancode) else Keyboard.Unshifted(scancode);
      return if ascii != 0 then Some(ascii) else None;
    }

    /** keyboard_handler; a panic finds sixteen keys waiting. */
    method KeyboardHandler(scancode: Byte, ghost others: seq<Endpoint>) returns (r: Outcome<()>)
      requires Valid(others)
      modifies this`modifierState, this`extendedPrefix, this`history, engine.endpoints
      ensures Next(old(Now()), Irq(scancode)) == if r.Panicked? then Panicked else Returned(Now())
      ensures r.Returned? ==> Valid(others)
      ensures r.Panicked? ==> Pending() == CAPACITY
    {
      hide Keyboard.Handle;
      KeyFits(Keyboard.State(modifierState, extendedPrefix), scancode);
      IrqStep(Now(), others, scancode);
      var key := ReadScancode(scancode);
      if key.Some? {
        var published := PublishKey(key.value);
        if published.Panicked? {
          return Panicked;
        }
      }
      history := history + [scancode];
      return Returned(());
    }

    /** One turn of shell_poll_input: true when a key was handled, false when the queue was empty. */
    method PollOnce(ghost others: seq<Endpoint>) returns (key: Option<nat>)
      requires Valid(others)
      modifies this`handled, engine.endpoints
      ensures Next(old(Now()), Poll) == Returned(Now()) && Valid(others)
      ensures handled == old(handled) + match key case None => [] case Some(k) => [k]
      ensures Pending() == if key.Some? then old(Pending()) - 1 else old(Pending())
      ensures key.None? <==> old(Pending()) == 0
    {
      PollStep(Now(), others);
      PollTakesOne(Now(), others);
      hide Waiting;
      hide Queue;
      hide Keyboard.After;
      hide Keyboard.Keys;
      var status, message := engine.DoReceive(endpoint, true);
      if status == Empty {
        return None;
      }
      var m := message.value;
      assert status == IpcOk && m.sender == 0 && (m.length == 1 || m.length == 2);
      key := Some(if m.length == 2 then m.data[0] + m.data[1] as int * 256 else m.data[0]);
      handled := handled + [key.value];
    }
  }
}
