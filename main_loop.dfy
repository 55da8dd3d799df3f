/**
 * The main loop's event handling: serial lines from the controller, jog
 * requests from the pad, the one-second status poll and the shutdown
 * signal, each handled as one step over the receive-buffer ledger.
 */
module MainLoop {
  import opened Common
  import opened StatusParser
  import opened Jog
  import opened CommandStack
  import opened LineReader

  /** What the loop makes of a line from the controller. */
  datatype LineKind = StatusLine | Acknowledgement | OtherLine

  /**
   * The lines the loop's classification, as written, can look at without
   * an index panic: it reads the first character of every line and the
   * second one of every line starting with 'o'.
   */
  predicate ClassifiableAsWritten(message: string) {
    |message| >= 1 && (message[0] == 'o' ==> |message| >= 2)
  }

  /** The classification as written: first character '<', or first two "ok". */
  function ClassifyLineAsWritten(message: string): (kind: LineKind)
    requires ClassifiableAsWritten(message)
    ensures kind == StatusLine <==> "<" <= message
    ensures kind == Acknowledgement <==> "ok" <= message
  {
    if message[0] == '<' then StatusLine
    else if message[0] == 'o' && message[1] == 'k' then Acknowledgement
    else OtherLine
  }

  /**
   * The classification on every line, short ones included: a status report
   * starts with '<', an acknowledgement starts with "ok", anything else is
   * ignored. Where the as-written classification is defined, both agree.
   */
  function ClassifyLine(message: string): (kind: LineKind)
    ensures kind == StatusLine <==> "<" <= message
    ensures kind == Acknowledgement <==> "ok" <= message
    ensures ClassifiableAsWritten(message) ==> kind == ClassifyLineAsWritten(message)
  {
    if |message| >= 1 && message[0] == '<' then StatusLine
    else if |message| >= 2 && message[0] == 'o' && message[1] == 'k' then Acknowledgement
    else OtherLine
  }

  /**
   * A blank line, CR LF alone, is handed on by the reader as the empty
   * line, and a lone "o" as a one-character line; the as-written
   * classification cannot look at either.
   */
  lemma ShortLinesReachClassifier()
    ensures Scan([CR, LF]) == (Some([]), [])
    ensures !ClassifiableAsWritten(BytesToString([]))
    ensures Scan([111, CR, LF]) == (Some([111]), [])
    ensures BytesToString([111]) == "o" && !ClassifiableAsWritten("o")
    ensures ClassifyLine("") == OtherLine && ClassifyLine("o") == OtherLine
  {
    ScanOneLine([], []);
    ScanOneLine([111], []);
    assert [] + [CR, LF] + [] == [CR, LF];
    assert [111] + [CR, LF] + [] == [111, CR, LF];
    assert BytesToString([111])[0] == 'o';
  }

  /** A line the loop can handle: a status report must be one the parser accepts without panicking. */
  predicate HandleableLine(message: string) {
    ClassifyLine(message) == StatusLine ==> StatusParsable(message)
  }

  /**
   * One line from the controller. A status report is parsed and, when it
   * parses, forwarded to the pad; an acknowledgement pops the oldest
   * in-flight command, an empty ledger being only an ignored error; any
   * other line is ignored.
   */
  method HandleSerialLine(stack: GrblCommandStack, message: string) returns (forwarded: Option<GrblStatus>)
    requires stack.Valid() && HandleableLine(message)
    modifies stack
    ensures stack.Valid()
    ensures old(stack.WithinBudget()) ==> stack.WithinBudget()
    ensures forwarded.Some? <==> ClassifyLine(message) == StatusLine && ParseStatus(message).Success?
    ensures forwarded.Some? ==> forwarded.value == ParseStatus(message).value
    ensures ClassifyLine(message) != Acknowledgement || old(stack.commands) == [] ==>
              stack.commands == old(stack.commands) && stack.rxbufferRemaining == old(stack.rxbufferRemaining)
    ensures ClassifyLine(message) == Acknowledgement && old(stack.commands) != [] ==>
              stack.commands == old(stack.commands)[1..] &&
              stack.rxbufferRemaining == old(stack.rxbufferRemaining) + |old(stack.commands)[0]|
  {
    forwarded := None;
    match ClassifyLine(message) {
      case StatusLine =>
        var status := ParseStatus(message);
        if status.Success? {
          forwarded := Some(status.value);
        }
      case Acknowledgement =>
        var _ := stack.Pop();
      case OtherLine =>
    }
  }

  /**
   * One jog request: the command is formatted, written only if it fits in
   * the receive buffer, and recorded on the ledger only if the write
   * succeeded. `writeSucceeds` stands for the outcome of the serial write.
   */
  method HandlePositionChange(stack: GrblCommandStack, req: PositionChangeRequest, writeSucceeds: bool)
    returns (command: string, written: bool, pushed: bool)
    requires stack.WithinBudget()
    modifies stack
    ensures stack.WithinBudget()
    ensures command == FormatJog(req)
    ensures written <==> old(stack.rxbufferRemaining) >= |command|
    ensures pushed <==> written && writeSucceeds
    ensures pushed ==> stack.commands == old(stack.commands) + [command] &&
                       stack.rxbufferRemaining == old(stack.rxbufferRemaining) - |command|
    ensures !pushed ==> stack.commands == old(stack.commands) &&
                        stack.rxbufferRemaining == old(stack.rxbufferRemaining)
  {
    command := FormatJog(req);
    written, pushed := false, false;
    if stack.CanPush(command) {
      written := true;
      if writeSucceeds {
        var _ := stack.Push(command);
        pushed := true;
      }
    }
  }

  /**
   * The events the loop selects on: a line from the controller, a jog
   * request together with the outcome of its serial write, the poll tick
   * and the shutdown signal.
   */
  datatype Event =
    | SerialLine(message: string)
    | PositionChange(req: PositionChangeRequest, writeSucceeds: bool)
    | Tick
    | Quit

  predicate Handleable(e: Event) {
    e.SerialLine? ==> HandleableLine(e.message)
  }

  predicate AllHandleable(events: seq<Event>) {
    forall i | 0 <= i < |events| :: Handleable(events[i])
  }

  /**
   * What the loop has done so far: the ledger (free bytes and in-flight
   * commands), the statuses forwarded to the pad, every serial write it
   * attempted, and every command it pushed.
   */
  datatype LoopState = LoopState(
    remaining: int,
    inFlight: seq<string>,
    statuses: seq<GrblStatus>,
    sent: seq<string>,
    pushed: seq<string>)

  function Initial(): LoopState {
    LoopState(RxBufferSize, [], [], [], [])
  }

  /** The status poll: a bare "?" that bypasses the ledger. */
  const StatusQuery: string := "?"

  /** The effect of one event, as a function of the loop's state. */
  function Step(s: LoopState, e: Event): (t: LoopState)
    requires Handleable(e)
    ensures s.statuses <= t.statuses && s.sent <= t.sent && s.pushed <= t.pushed
    ensures !e.SerialLine? ==> t.statuses == s.statuses
    ensures !e.PositionChange? ==> t.pushed == s.pushed
    ensures e.Tick? || e.Quit? ==> t.remaining == s.remaining && t.inFlight == s.inFlight
  {
    match e
    case SerialLine(message) =>
      (match ClassifyLine(message)
       case StatusLine =>
         var r := ParseStatus(message);
         if r.Success? then s.(statuses := s.statuses + [r.value]) else s
       case Acknowledgement =>
         if s.inFlight == [] then s
         else s.(remaining := s.remaining + |s.inFlight[0]|, inFlight := s.inFlight[1..])
       case OtherLine => s)
    case PositionChange(req, writeSucceeds) =>
      var command := FormatJog(req);
      if s.remaining < |command| then s
      else if !writeSucceeds then s.(sent := s.sent + [command])
      else s.(remaining := s.remaining - |command|, inFlight := s.inFlight + [command],
              sent := s.sent + [command], pushed := s.pushed + [command])
    case Tick => s.(sent := s.sent + [StatusQuery])
    case Quit => s
  }

  /** The loop over a run of events: each is handled in turn until the shutdown signal. */
  function Run(s: LoopState, events: seq<Event>): (t: LoopState)
    requires AllHandleable(events)
    ensures s.statuses <= t.statuses && s.sent <= t.sent && s.pushed <= t.pushed
    decreases |events|
  {
    if events == [] || events[0].Quit? then s
    else
      AllHandleableTail(events);
      var next := Step(s, events[0]);
      var t := Run(next, events[1..]);
      PrefixTrans(s.statuses, next.statuses, t.statuses);
      PrefixTrans(s.sent, next.sent, t.sent);
      PrefixTrans(s.pushed, next.pushed, t.pushed);
      t
  }

  lemma PrefixTrans<T>(a: seq<T>, b: seq<T>, c: seq<T>)
    requires a <= b && b <= c
    ensures a <= c
  {
    assert a == b[..|a|] && b == c[..|b|];
    assert c[..|b|][..|a|] == c[..|a|];
  }

  /** `a` is the tail end of `b`. */
  predicate IsSuffix<T(==)>(a: seq<T>, b: seq<T>) {
    |a| <= |b| && a == b[|b| - |a|..]
  }

  /**
   * The loop's invariant: free bytes and in-flight bytes add up to the
   * receive buffer, the buffer is never over-committed, and the in-flight
   * commands are the most recently pushed ones, in the order they were
   * pushed.
   */
  predicate Balanced(s: LoopState) {
    && s.remaining + InFlightBytes(s.inFlight) == RxBufferSize
    && s.remaining >= 0
    && IsSuffix(s.inFlight, s.pushed)
  }

  lemma InitialBalanced()
    ensures Balanced(Initial())
  {
  }

  /** An acknowledgement that pops the oldest command keeps the invariant. */
  lemma PopKeepsBalance(s: LoopState)
    requires Balanced(s) && s.inFlight != []
    ensures Balanced(s.(remaining := s.remaining + |s.inFlight[0]|, inFlight := s.inFlight[1..]))
  {
    var n := |s.pushed|;
    assert s.inFlight[1..] == s.pushed[n - |s.inFlight| + 1..];
  }

  /** Pushing a command that fits keeps the invariant. */
  lemma PushKeepsBalance(s: LoopState, command: string)
    requires Balanced(s) && s.remaining >= |command|
    ensures Balanced(s.(remaining := s.remaining - |command|, inFlight := s.inFlight + [command],
                        sent := s.sent + [command], pushed := s.pushed + [command]))
  {
    InFlightBytesAppend(s.inFlight, command);
    var n := |s.pushed|;
    assert (s.pushed + [command])[n - |s.inFlight|..] == s.pushed[n - |s.inFlight|..] + [command];
  }

  /** Every event keeps the invariant. */
  lemma StepKeepsBalance(s: LoopState, e: Event)
    requires Balanced(s) && Handleable(e)
    ensures Balanced(Step(s, e))
  {
    if e.SerialLine? && ClassifyLine(e.message) == Acknowledgement && s.inFlight != [] {
      PopKeepsBalance(s);
    } else if e.PositionChange? && s.remaining >= |FormatJog(e.req)| && e.writeSucceeds {
      PushKeepsBalance(s, FormatJog(e.req));
    }
  }

  /** The invariant holds after any run of events. */
  lemma {:induction false} RunKeepsBalance(s: LoopState, events: seq<Event>)
    requires Balanced(s) && AllHandleable(events)
    ensures Balanced(Run(s, events))
    decreases |events|
  {
    if events != [] && !events[0].Quit? {
      AllHandleableTail(events);
      StepKeepsBalance(s, events[0]);
      RunKeepsBalance(Step(s, events[0]), events[1..]);
    }
  }

  /**
   * A jog command is written exactly when it fits next to the bytes
   * already in flight, and pushed exactly when, in addition, the write
   * succeeded.
   */
  lemma JogWrittenIffFits(s: LoopState, req: PositionChangeRequest, writeSucceeds: bool)
    requires Balanced(s)
    ensures var t := Step(s, PositionChange(req, writeSucceeds));
      (t.sent == s.sent + [FormatJog(req)] <==> InFlightBytes(s.inFlight) + |FormatJog(req)| <= RxBufferSize)
    ensures var t := Step(s, PositionChange(req, writeSucceeds));
      (t.inFlight == s.inFlight + [FormatJog(req)] <==>
         InFlightBytes(s.inFlight) + |FormatJog(req)| <= RxBufferSize && writeSucceeds)
  {
    var t := Step(s, PositionChange(req, writeSucceeds));
    if InFlightBytes(s.inFlight) + |FormatJog(req)| > RxBufferSize {
      assert |t.sent| == |s.sent|;
      assert |t.inFlight| == |s.inFlight|;
    } else if !writeSucceeds {
      assert |t.inFlight| == |s.inFlight|;
    }
  }

  /** The status a single event forwards, if any. */
  function ForwardedBy(e: Event): seq<GrblStatus>
    requires Handleable(e)
  {
    if e.SerialLine? && ClassifyLine(e.message) == StatusLine && ParseStatus(e.message).Success?
    then [ParseStatus(e.message).value]
    else []
  }

  /** The statuses a run of events forwards, independently of the ledger. */
  function StatusesOf(events: seq<Event>): seq<GrblStatus>
    requires AllHandleable(events)
    decreases |events|
  {
    if events == [] || events[0].Quit? then []
    else ForwardedBy(events[0]) + StatusesOf(events[1..])
  }

  lemma AllHandleableTail(events: seq<Event>)
    requires AllHandleable(events) && events != []
    ensures Handleable(events[0]) && AllHandleable(events[1..])
  {
    forall i | 0 <= i < |events| - 1 ensures Handleable(events[1..][i]) {
      assert events[1..][i] == events[i + 1];
    }
  }

  lemma StepForwards(s: LoopState, e: Event)
    requires Handleable(e)
    ensures Step(s, e).statuses == s.statuses + ForwardedBy(e)
  {
    if !(e.SerialLine? && ClassifyLine(e.message) == StatusLine && ParseStatus(e.message).Success?) {
      assert s.statuses + [] == s.statuses;
    }
  }

  /**
   * Every status report that parses is forwarded, in the order received,
   * whatever the state of the ledger.
   */
  lemma {:induction false} RunForwardsStatuses(s: LoopState, events: seq<Event>)
    requires AllHandleable(events)
    ensures Run(s, events).statuses == s.statuses + StatusesOf(events)
    decreases |events|
  {
    if events == [] || events[0].Quit? {
      assert s.statuses + [] == s.statuses;
    } else {
      AllHandleableTail(events);
      var t := Step(s, events[0]);
      StepForwards(s, events[0]);
      RunForwardsStatuses(t, events[1..]);
      assert Run(s, events) == Run(t, events[1..]);
      assert StatusesOf(events) == ForwardedBy(events[0]) + StatusesOf(events[1..]);
      ConcatAssoc(s.statuses, ForwardedBy(events[0]), StatusesOf(events[1..]));
    }
  }

  /**
   * One pass of the loop's select: handles `e` against the ledger and
   * records what it forwards, writes and pushes, exactly as `Step` says.
   */
  method HandleEvent(stack: GrblCommandStack, e: Event,
                     statuses: seq<GrblStatus>, sent: seq<string>, pushed: seq<string>)
    returns (statuses': seq<GrblStatus>, sent': seq<string>, pushed': seq<string>)
    requires stack.WithinBudget() && Handleable(e) && !e.Quit?
    modifies stack
    ensures stack.WithinBudget()
    ensures LoopState(stack.rxbufferRemaining, stack.commands, statuses', sent', pushed')
            == Step(LoopState(old(stack.rxbufferRemaining), old(stack.commands), statuses, sent, pushed), e)
  {
    statuses', sent', pushed' := statuses, sent, pushed;
    match e {
      case SerialLine(message) =>
        var forwarded := HandleSerialLine(stack, message);
        if forwarded.Some? {
          statuses' := statuses + [forwarded.value];
        }
      case PositionChange(req, writeSucceeds) =>
        var command, written, wasPushed := HandlePositionChange(stack, req, writeSucceeds);
        if written {
          sent' := sent + [command];
        }
        if wasPushed {
          pushed' := pushed + [command];
        }
      case Tick =>
        sent' := sent + [StatusQuery];
    }
  }

  /**
   * The main loop over a run of events, from a fresh ledger: it does what
   * `Run` describes, so the receive buffer is never over-committed.
   */
  method MainLoop(events: seq<Event>)
    returns (stack: GrblCommandStack, statuses: seq<GrblStatus>, sent: seq<string>, pushed: seq<string>)
    requires AllHandleable(events)
    ensures stack.WithinBudget()
    ensures LoopState(stack.rxbufferRemaining, stack.commands, statuses, sent, pushed) == Run(Initial(), events)
  {
    stack := new GrblCommandStack();
    statuses, sent, pushed := [], [], [];
    assert events[0..] == events;
    var k := 0;
    while k < |events| && !events[k].Quit?
      invariant 0 <= k <= |events|
      invariant fresh(stack)
      invariant AllHandleable(events[k..])
      invariant Balanced(LoopState(stack.rxbufferRemaining, stack.commands, statuses, sent, pushed))
      invariant Run(LoopState(stack.rxbufferRemaining, stack.commands, statuses, sent, pushed), events[k..])
                == Run(Initial(), events)
      decreases |events| - k
    {
      ghost var before := LoopState(stack.rxbufferRemaining, stack.commands, statuses, sent, pushed);
      AllHandleableTail(events[k..]);
      assert events[k..][0] == events[k] && events[k..][1..] == events[k + 1..];
      StepKeepsBalance(before, events[k]);
      statuses, sent, pushed := HandleEvent(stack, events[k], statuses, sent, pushed);
      k := k + 1;
    }
    assert k == |events| ==> events[k..] == [];
  }
}
