/** The S4 object: its parse state `next`, its telemetry record `e`, and the
    order of the calls it makes on its event channel. */
module Rower {
  import opened Telemetry
  import opened Protocol
  import ProtocolProperties

  class S4 {
    /** `self.next`: the parse state. */
    var next: ParseState
    /** `self.e`: the telemetry record, updated field by field. */
    var e: Snapshot
    /** The calls made on `self.event`, oldest first: `notify` with a copy of
        the record at that moment, or `error` with its message. */
    var log: seq<Event>

    /** What the constructor establishes and every call of Dispatch and
        ReadAndDispatch keeps:
        `next` is one of the five named states and `event.error` was never called. */
    ghost predicate Valid()
      reads this
    {
      Consistent(next, e) && NoErrors(log)
    }

    constructor ()
      ensures next == Cmd && e == Snapshot(0, None, None) && log == []
      ensures Valid()
    {
      next := Cmd;
      e := Initial();
      log := [];
    }

    /** The body of the `for ... of` loop in `readAndDispatch`: the `switch` on
        the current state for one byte `c`, which rewrites `next` and the fields
        of `e` in place and may call the event channel once. */
    method Dispatch(c: Byte)
      modifies this
      ensures var s := Step(old(next), old(e), c);
        next == s.next && e == s.e && log == old(log) + EventSeq(s.event)
      ensures old(Valid()) ==> Valid()
    {
      ghost var next0, e0, log0 := next, e, log;
      var current := next;
      match current {
        case Cmd =>
          if c == DistanceOp {
            next := DistanceDm;
          } else if c == RateSpeedOp {
            next := StrokesPerMin;
          } else if c == HeartRateOp {
            next := Bpm;
          } else if c == StrokeEndOp {
            // stroke bookkeeping only; it never reaches the record
          } else {
            // unknown command: skipped
          }
        case StrokesPerMin =>
          e := e.(strokesPerMin := Some(c));
          next := SpeedDmS;
        case SpeedDmS =>
          e := e.(speedDmS := Some(c));
          next := Cmd;
          log := log + [Notify(e)];
        case Bpm =>
          next := Cmd;
        case DistanceDm =>
          e := e.(distanceDm := e.distanceDm + c);
          if c == 0 {
            e := e.(strokesPerMin := Some(0), speedDmS := Some(0));
            log := log + [Notify(e)];
          }
          next := Cmd;
        case Other(name) =>
          log := log + [Error(UnknownStateMessage(name))];
      }
      if Consistent(next0, e0) {
        ProtocolProperties.StepConsistent(next0, e0, c);
        assert NoErrors(log0) ==> NoErrors(log);
      }
    }

    /** `readAndDispatch(data)`: one pass over the chunk, one byte at a time.
        The new state is that of `Run` from the old state, whatever state the
        object was in; from a valid state the error branch is never taken. */
    method ReadAndDispatch(data: seq<Byte>)
      modifies this
      ensures var r := Run(old(next), old(e), data);
        next == r.next && e == r.e && log == old(log) + r.events
      ensures old(Valid()) ==> Valid()
    {
      ghost var next0, e0, log0 := next, e, log;
      for i := 0 to |data|
        invariant var r := Run(next0, e0, data[..i]);
          next == r.next && e == r.e && log == log0 + r.events
      {
        ProtocolProperties.RunPrefix(next0, e0, data, i);
        Dispatch(data[i]);
      }
      assert data[..|data|] == data;
      if Consistent(next0, e0) {
        ProtocolProperties.RunConsistent(next0, e0, data);
        assert NoErrors(log0) ==> NoErrors(log);
      }
    }
  }

  /** Two objects, one fed the chunks `a` and `b` in two calls and one fed
      `a + b` in a single call, end in the same state, with the same record and
      the same calls on their event channels. */
  method ChunkedCallsMatchWhole(a: seq<Byte>, b: seq<Byte>) returns (same: bool)
    ensures same
  {
    ghost var first := Run(Cmd, Initial(), a);
    ghost var second := Run(first.next, first.e, b);
    ProtocolProperties.RunAppend(Cmd, Initial(), a, b);
    var chunked := new S4();
    chunked.ReadAndDispatch(a);
    assert chunked.next == first.next && chunked.e == first.e && chunked.log == first.events;
    chunked.ReadAndDispatch(b);
    assert chunked.next == second.next && chunked.e == second.e && chunked.log == first.events + second.events;
    var whole := new S4();
    whole.ReadAndDispatch(a + b);
    same := chunked.next == whole.next && chunked.e == whole.e && chunked.log == whole.log;
  }
}
