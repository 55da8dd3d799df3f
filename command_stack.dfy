/**
 * The host-side ledger of the motion controller's receive buffer
 * (`GrblCommandStack`): the commands sent but not yet acknowledged, oldest
 * first, and the number of buffer bytes still free.
 */
module CommandStack {
  import opened Common

  /** Size of the firmware's serial receive buffer, the ledger's initial budget. */
  const RxBufferSize: int := 126

  /** Total byte length of a list of in-flight commands. */
  function InFlightBytes(commands: seq<string>): nat
  {
    if commands == [] then 0 else |commands[0]| + InFlightBytes(commands[1..])
  }

  /** Appending a command adds exactly its length to the in-flight total. */
  lemma {:induction false} InFlightBytesAppend(commands: seq<string>, command: string)
    ensures InFlightBytes(commands + [command]) == InFlightBytes(commands) + |command|
  {
    if commands != [] {
      assert (commands + [command])[1..] == commands[1..] + [command];
      InFlightBytesAppend(commands[1..], command);
    }
  }

  datatype StackError = NoCommandsToPop

  class GrblCommandStack {
    var rxbufferRemaining: int
    var commands: seq<string>

    /**
     * The byte-accounting invariant: free bytes plus the bytes of every
     * command in flight always add up to the size of the receive buffer.
     */
    ghost predicate Valid()
      reads this
    {
      rxbufferRemaining + InFlightBytes(commands) == RxBufferSize
    }

    /** The receive buffer is not over-committed. */
    ghost predicate WithinBudget()
      reads this
    {
      Valid() && rxbufferRemaining >= 0
    }

    /** A fresh ledger: nothing in flight, the whole buffer free. */
    constructor ()
      ensures Valid() && WithinBudget()
      ensures commands == [] && rxbufferRemaining == RxBufferSize
    {
      rxbufferRemaining := RxBufferSize;
      commands := [];
    }

    /**
     * Whether `command` still fits in the receive buffer: sending it would
     * keep the bytes in flight within the buffer's size.
     */
    function CanPush(command: string): (fits: bool)
      reads this
      ensures Valid() ==> (fits <==> InFlightBytes(commands) + |command| <= RxBufferSize)
    {
      rxbufferRemaining >= |command|
    }

    /**
     * Records `command` as sent: it becomes the newest in-flight command and
     * its length is taken from the budget. No capacity check is made here;
     * the caller checks `CanPush` first. The source's error result is always nil.
     */
    method Push(command: string) returns (n: nat)
      requires Valid()
      modifies this
      ensures Valid()
      ensures commands == old(commands) + [command]
      ensures rxbufferRemaining == old(rxbufferRemaining) - |command|
      ensures n == |command|
      ensures old(CanPush(command)) ==> WithinBudget()
    {
      InFlightBytesAppend(commands, command);
      commands := commands + [command];
      rxbufferRemaining := rxbufferRemaining - |command|;
      n := |command|;
    }

    /**
     * Handles one acknowledgement: the oldest in-flight command leaves the
     * ledger and its bytes return to the budget. With nothing in flight it
     * reports an error and changes nothing.
     */
    method Pop() returns (err: Option<StackError>)
      requires Valid()
      modifies this
      ensures Valid()
      ensures old(WithinBudget()) ==> WithinBudget()
      ensures err.Some? <==> old(commands) == []
      ensures old(commands) == [] ==>
                commands == old(commands) && rxbufferRemaining == old(rxbufferRemaining)
      ensures old(commands) != [] ==>
                commands == old(commands)[1..] &&
                rxbufferRemaining == old(rxbufferRemaining) + |old(commands)[0]|
    {
      if |commands| == 0 {
        return Some(NoCommandsToPop);
      }
      var popped := commands[0];
      commands := commands[1..];
      rxbufferRemaining := rxbufferRemaining + |popped|;
      err := None;
    }
  }
}
