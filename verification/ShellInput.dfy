/** The keyboard, its queue and the shell's line editor put together: scancodes in, an edited line out. */
module ShellInput {
  import opened Words
  import opened Ipc
  import opened InputPipeline
  import Editor
  import Keyboard
  import LineEditor

  /** The scancodes that arrive during the first n turns. */
  ghost function Arrived(arriving: seq<seq<Byte>>, n: nat): seq<Byte> {
    if n == 0 then []
    else Arrived(arriving, n - 1) + if n - 1 < |arriving| then arriving[n - 1] else []
  }

  lemma ArrivedNext(h: seq<Byte>, arriving: seq<seq<Byte>>, n: nat)
    ensures n < |arriving| ==> h + Arrived(arriving, n) + arriving[n] == h + Arrived(arriving, n + 1)
    ensures n >= |arriving| ==> h + Arrived(arriving, n) == h + Arrived(arriving, n + 1)
  {
  }

  lemma NoneWaiting(driver: Driver, others: seq<Endpoint>)
    requires driver.Valid(others) && driver.Pending() == 0
    ensures driver.handled == Keyboard.Keys(driver.history)
  {
  }

  class Console {
    const driver: Driver
    const shell: LineEditor.Shell

    /** The editor stands where the keys handled so far have taken it from its initial state. */
    ghost predicate Valid(others: seq<Endpoint>)
      reads this, driver, driver.engine, driver.engine.endpoints, shell, shell.inputBuffer, shell.historyBuffer
    {
      && driver.Valid(others) && shell.Valid()
      && shell.Now() == Editor.Keys(Editor.Start(), driver.handled)
    }

    constructor (driver: Driver, shell: LineEditor.Shell, ghost others: seq<Endpoint>)
      requires driver.Valid(others) && driver.handled == []
      requires shell.Valid() && shell.Now() == Editor.Start()
      ensures this.driver == driver && this.shell == shell && Valid(others)
    {
      this.driver, this.shell := driver, shell;
    }

    /** A keyboard interrupt does not touch the line, whatever it puts in the queue. */
    method Interrupt(scancode: Byte, ghost others: seq<Endpoint>) returns (r: Outcome<()>)
      requires Valid(others)
      modifies driver`modifierState, driver`extendedPrefix, driver`history, driver.engine.endpoints
      ensures r.Panicked? <==> Next(old(driver.Now()), Irq(scancode)).Panicked?
      ensures r.Returned? ==> Valid(others) && driver.history == old(driver.history) + [scancode]
      ensures r.Panicked? ==> driver.Pending() == CAPACITY
      ensures shell.Now() == old(shell.Now())
    {
      r := driver.KeyboardHandler(scancode, others);
    }

    /** One turn of shell_poll_input; false when there was nothing left to handle. */
    method HandleOne(ghost others: seq<Endpoint>) returns (more: bool)
      requires Valid(others)
      modifies driver`handled, driver.engine.endpoints, shell, shell.inputBuffer, shell.historyBuffer
      ensures Valid(others) && driver.history == old(driver.history) && driver.endpoint == old(driver.endpoint)
      ensures more <==> old(driver.Pending()) > 0
      ensures driver.Pending() == if more then old(driver.Pending()) - 1 else 0
    {
      hide InputPipeline.Consistent;
      hide InputPipeline.Next;
      hide Editor.Key;
      hide Editor.Keys;
      var key := driver.PollOnce(others);
      if key.None? {
        assert driver.handled == old(driver.handled);
        return false;
      }
      Editor.KeysSnoc(Editor.Start(), old(driver.handled), key.value);
      shell.HandleKey(key.value);
      return true;
    }

    /** A burst of interrupts. */
    method Deliver(codes: seq<Byte>, ghost others: seq<Endpoint>) returns (r: Outcome<()>)
      requires Valid(others)
      modifies driver`modifierState, driver`extendedPrefix, driver`history, driver.engine.endpoints
      ensures r.Returned? ==> Valid(others) && driver.history == old(driver.history) + codes
      ensures r.Panicked? ==> driver.Pending() == CAPACITY
    {
      hide InputPipeline.Consistent;
      hide InputPipeline.Next;
      hide Editor.Keys;
      hide LineEditor.Shell.Valid;
      var i := 0;
      while i < |codes|
        invariant 0 <= i <= |codes| && Valid(others)
        invariant driver.history == old(driver.history) + codes[..i]
      {
        r := Interrupt(codes[i], others);
        if r.Panicked? {
          return;
        }
        assert codes[..i + 1] == codes[..i] + [codes[i]];
        i := i + 1;
      }
      assert codes[..i] == codes;
      return Returned(());
    }

    /**
     shell_poll_input, with arriving[n] delivered by interrupts after the n-th key has been handled.
     Unless an interrupt finds sixteen keys waiting, it returns with none waiting, and line, cursor and
     history are then the editor's answer to every key of every scancode delivered.
     */
    method PollInput(arriving: seq<seq<Byte>>, ghost others: seq<Endpoint>)
      returns (r: Outcome<()>, ghost turns: nat)
      requires Valid(others)
      modifies driver`modifierState, driver`extendedPrefix, driver`history, driver`handled, driver.engine.endpoints
      modifies shell, shell.inputBuffer, shell.historyBuffer
      ensures r.Panicked? ==> driver.Pending() == CAPACITY
      ensures r.Returned? ==> Valid(others) && driver.Pending() == 0
      ensures r.Returned? ==> driver.history == old(driver.history) + Arrived(arriving, turns)
      ensures r.Returned? ==> driver.handled == Keyboard.Keys(driver.history)
      ensures r.Returned? ==> shell.Now() == Editor.Keys(Editor.Start(), Keyboard.Keys(driver.history))
    {
      hide InputPipeline.Consistent;
      hide InputPipeline.Next;
      hide Editor.Keys;
      hide LineEditor.Shell.Valid;
      hide Driver.Valid;
      assert old(driver.history) + Arrived(arriving, 0) == driver.history;
      hide Arrived;
      var more, n := true, 0;
      turns := 0;
      while more
        invariant Valid(others) && n <= |arriving|
        invariant n == if turns < |arriving| then turns else |arriving|
        invariant driver.history == old(driver.history) + Arrived(arriving, turns)
        invariant !more ==> driver.Pending() == 0
        decreases more, |arriving| - n, driver.Pending()
      {
        more := HandleOne(others);
        if more {
          ArrivedNext(old(driver.history), arriving, turns);
          if n < |arriving| {
            r := Deliver(arriving[n], others);
            if r.Panicked? {
              return;
            }
            n := n + 1;
          }
          turns := turns + 1;
        }
      }
      NoneWaiting(driver, others);
      r := Returned(());
    }
  }
}
