/** The byte-at-a-time state machine of `S4.readAndDispatch`, as pure functions.

    The source keeps its parse state in `self.next` as a string.  The five strings
    the decoder assigns are the constructors `Cmd` ("CMD"), `DistanceDm`
    ("distance_dm"), `StrokesPerMin` ("strokes_per_min"), `SpeedDmS`
    ("speed_dm_s") and `Bpm` ("BPM"); every other string `s` is `Other(s)`, the
    value that sends the `switch` to its `default` branch, which reports an
    error.  `Step` models that branch too, so that its unreachability is proved
    rather than assumed.
 */
module Protocol {
  import opened Telemetry

  datatype ParseState = Cmd | DistanceDm | StrokesPerMin | SpeedDmS | Bpm | Other(name: string)

  /** The opcodes of the S4 serial protocol. */
  const DistanceOp: Byte := 0xFE
  const RateSpeedOp: Byte := 0xFF
  const StrokeEndOp: Byte := 0xFC
  const HeartRateOp: Byte := 0xFB

  /** The five strings the decoder assigns to `self.next`, spelled as in the source. */
  predicate IsStateName(name: string)
  {
    name == "CMD" || name == "distance_dm" || name == "strokes_per_min" || name == "speed_dm_s" || name == "BPM"
  }

  /** The five states the decoder's `switch` has a case for. */
  predicate IsKnownState(next: ParseState)
  {
    !next.Other?
  }

  predicate IsOpcode(c: Byte)
  {
    c == DistanceOp || c == RateSpeedOp || c == StrokeEndOp || c == HeartRateOp
  }

  /** A call the decoder makes on its event channel: `event.notify(self.e)`,
      recorded as a copy of the record at that moment, or `event.error(message)`. */
  datatype Event = Notify(snapshot: Snapshot) | Error(message: string)

  datatype StepResult = StepResult(next: ParseState, e: Snapshot, event: Option<Event>)

  datatype RunResult = RunResult(next: ParseState, e: Snapshot, events: seq<Event>)

  function EventSeq(event: Option<Event>): (r: seq<Event>)
  {
    match event
    case None => []
    case Some(ev) => [ev]
  }

  predicate IsNotify(event: Option<Event>)
  {
    event.Some? && event.value.Notify?
  }

  predicate IsError(event: Option<Event>)
  {
    event.Some? && event.value.Error?
  }

  /** The message the `default` branch hands to `event.error`. */
  function UnknownStateMessage(name: string): string
  {
    "Unknown state \"" + name + "\""
  }

  /** One iteration of the `for ... of` loop: the byte `c` read in state `next`
      with record `e`. */
  function Step(next: ParseState, e: Snapshot, c: Byte): (r: StepResult)
    // the error branch is taken exactly when the state is not one of the five
    ensures IsError(r.event) <==> !IsKnownState(next)
    ensures IsKnownState(next) ==> IsKnownState(r.next)
    // emission happens exactly after a speed byte or after a zero distance byte,
    // and what is emitted is the record as it is after this byte
    ensures IsNotify(r.event) <==> next == SpeedDmS || (next == DistanceDm && c == 0)
    ensures IsNotify(r.event) ==> r.event.value.snapshot == r.e
    // only a distance byte moves the distance, and only by the byte's value
    ensures r.e.distanceDm == e.distanceDm + (if next == DistanceDm then c else 0)
    // every data byte completes its field and hands control back to CMD
    ensures next == DistanceDm || next == SpeedDmS || next == Bpm ==> r.next == Cmd
  {
    match next
    case Cmd =>
      if c == DistanceOp then StepResult(DistanceDm, e, None)
      else if c == RateSpeedOp then StepResult(StrokesPerMin, e, None)
      else if c == HeartRateOp then StepResult(Bpm, e, None)
      else if c == StrokeEndOp then StepResult(Cmd, e, None)
      else StepResult(Cmd, e, None)
    case StrokesPerMin =>
      StepResult(SpeedDmS, e.(strokesPerMin := Some(c)), None)
    case SpeedDmS =>
      var e' := e.(speedDmS := Some(c));
      StepResult(Cmd, e', Some(Notify(e')))
    case Bpm =>
      StepResult(Cmd, e, None)
    case DistanceDm =>
      var moved := e.(distanceDm := e.distanceDm + c);
      if c == 0 then
        var idle := moved.(strokesPerMin := Some(0), speedDmS := Some(0));
        StepResult(Cmd, idle, Some(Notify(idle)))
      else
        StepResult(Cmd, moved, None)
    case Other(name) =>
      StepResult(next, e, Some(Error(UnknownStateMessage(name))))
  }

  /** One call of `readAndDispatch(data)` starting from state `next` and record
      `e`: the final state and record, and the events in the order of the calls. */
  function Run(next: ParseState, e: Snapshot, data: seq<Byte>): (r: RunResult)
    ensures |r.events| <= |data|
    ensures e.distanceDm <= r.e.distanceDm
    decreases |data|
  {
    if data == [] then RunResult(next, e, [])
    else
      var p := Run(next, e, data[..|data| - 1]);
      var s := Step(p.next, p.e, data[|data| - 1]);
      RunResult(s.next, s.e, p.events + EventSeq(s.event))
  }

  predicate NoErrors(events: seq<Event>)
  {
    forall i :: 0 <= i < |events| ==> events[i].Notify?
  }

  /** What holds of the decoder's state from its construction on: the state is
      one the `switch` knows, a speed is only ever present with a stroke rate,
      and the speed byte is only awaited once a stroke rate has been stored. */
  predicate Consistent(next: ParseState, e: Snapshot)
  {
    && IsKnownState(next)
    && (e.speedDmS.Some? ==> e.strokesPerMin.Some?)
    && (next == SpeedDmS ==> e.strokesPerMin.Some?)
  }
}
