/** Properties of the S4 decoder: what each protocol message does, what is
    emitted and when, that chunk boundaries do not matter, and that the error
    branch is never reached from the constructor's state. */
module ProtocolProperties {
  import opened Telemetry
  import opened Protocol

  // ---------------------------------------------------------------------------
  // Running a sequence of bytes
  // ---------------------------------------------------------------------------

  /** Running one byte is one step. */
  lemma RunOne(next: ParseState, e: Snapshot, c: Byte)
    ensures var s := Step(next, e, c);
      Run(next, e, [c]) == RunResult(s.next, s.e, EventSeq(s.event))
  {
    assert [c][..0] == [];
  }

  /** Running `a + b` is running `a` and then running `b` from where `a` left
      the state and the record, the events of `b` following those of `a`. */
  lemma {:induction false} RunAppend(next: ParseState, e: Snapshot, a: seq<Byte>, b: seq<Byte>)
    ensures var p := Run(next, e, a); var q := Run(p.next, p.e, b);
      Run(next, e, a + b) == RunResult(q.next, q.e, p.events + q.events)
    decreases |b|
  {
    if b == [] {
      assert a + b == a;
    } else {
      var b' := b[..|b| - 1];
      assert (a + b)[..|a + b| - 1] == a + b';
      assert (a + b)[|a + b| - 1] == b[|b| - 1];
      RunAppend(next, e, a, b');
      var p := Run(next, e, a);
      var q' := Run(p.next, p.e, b');
      var s := Step(q'.next, q'.e, b[|b| - 1]);
      assert p.events + q'.events + EventSeq(s.event) == p.events + (q'.events + EventSeq(s.event));
    }
  }

  /** Running one more byte of `data` is one more step. */
  lemma RunPrefix(next: ParseState, e: Snapshot, data: seq<Byte>, i: nat)
    requires i < |data|
    ensures var p := Run(next, e, data[..i]); var s := Step(p.next, p.e, data[i]);
      Run(next, e, data[..i + 1]) == RunResult(s.next, s.e, p.events + EventSeq(s.event))
  {
    assert data[..i + 1][..i] == data[..i];
  }

  /** Running a byte in front of `data`. */
  lemma RunCons(next: ParseState, e: Snapshot, c: Byte, data: seq<Byte>)
    ensures var s := Step(next, e, c); var q := Run(s.next, s.e, data);
      Run(next, e, [c] + data) == RunResult(q.next, q.e, EventSeq(s.event) + q.events)
  {
    RunAppend(next, e, [c], data);
    RunOne(next, e, c);
  }

  // ---------------------------------------------------------------------------
  // Chunking invariance: `next` and `e` persist on the object between calls
  // ---------------------------------------------------------------------------

  function Concat(chunks: seq<seq<Byte>>): (r: seq<Byte>)
  {
    if chunks == [] then [] else Concat(chunks[..|chunks| - 1]) + chunks[|chunks| - 1]
  }

  /** Successive calls of `readAndDispatch`, one per chunk, each starting where
      the previous call left `next` and `e`. */
  function RunChunks(next: ParseState, e: Snapshot, chunks: seq<seq<Byte>>): (r: RunResult)
  {
    if chunks == [] then RunResult(next, e, [])
    else
      var p := RunChunks(next, e, chunks[..|chunks| - 1]);
      var q := Run(p.next, p.e, chunks[|chunks| - 1]);
      RunResult(q.next, q.e, p.events + q.events)
  }

  /** However the byte stream is cut into chunks, the final state, the final
      record and the emitted sequence are those of one call on the whole stream. */
  lemma {:induction false} ChunkingInvariance(next: ParseState, e: Snapshot, chunks: seq<seq<Byte>>)
    ensures RunChunks(next, e, chunks) == Run(next, e, Concat(chunks))
  {
    if chunks != [] {
      var init := chunks[..|chunks| - 1];
      ChunkingInvariance(next, e, init);
      RunAppend(next, e, Concat(init), chunks[|chunks| - 1]);
    }
  }

  // ---------------------------------------------------------------------------
  // The error branch is unreachable
  // ---------------------------------------------------------------------------

  /** From a consistent state one byte keeps the state consistent, never takes
      the error branch, and every emitted record carries a stroke rate and a speed. */
  lemma StepConsistent(next: ParseState, e: Snapshot, c: Byte)
    requires Consistent(next, e)
    ensures var s := Step(next, e, c);
      && Consistent(s.next, s.e)
      && !IsError(s.event)
      && (IsNotify(s.event) ==> s.e.strokesPerMin.Some? && s.e.speedDmS.Some?)
  {
  }

  /** The constructor's state is consistent. */
  lemma InitialConsistent()
    ensures Consistent(Cmd, Initial())
  {
  }

  /** From a consistent state, whatever bytes arrive, `next` stays one of the
      five named states, so `event.error` is never called, and every emitted
      record carries both a stroke rate and a speed. */
  lemma {:induction false} RunConsistent(next: ParseState, e: Snapshot, data: seq<Byte>)
    requires Consistent(next, e)
    ensures var r := Run(next, e, data);
      && Consistent(r.next, r.e)
      && NoErrors(r.events)
      && forall i :: 0 <= i < |r.events| ==>
           r.events[i].Notify? && r.events[i].snapshot.strokesPerMin.Some? && r.events[i].snapshot.speedDmS.Some?
    decreases |data|
  {
    if data != [] {
      var p := Run(next, e, data[..|data| - 1]);
      RunConsistent(next, e, data[..|data| - 1]);
      StepConsistent(p.next, p.e, data[|data| - 1]);
    }
  }

  /** From a state outside the five, that is a string none of the five names,
      every byte takes the `default` branch: one `event.error` call naming the
      state, and neither the state nor the record changes. */
  lemma {:induction false} UnknownStateStays(next: ParseState, e: Snapshot, data: seq<Byte>)
    requires !IsKnownState(next) && !IsStateName(next.name)
    ensures var r := Run(next, e, data);
      && r.next == next && r.e == e && |r.events| == |data|
      && forall i :: 0 <= i < |r.events| ==> r.events[i] == Error(UnknownStateMessage(next.name))
    decreases |data|
  {
    if data != [] {
      UnknownStateStays(next, e, data[..|data| - 1]);
    }
  }

  // ---------------------------------------------------------------------------
  // What is emitted, and in what order
  // ---------------------------------------------------------------------------

  /** Every emitted record's distance lies in `lo..hi`. */
  predicate DistancesWithin(events: seq<Event>, lo: nat, hi: nat)
  {
    forall i :: 0 <= i < |events| && events[i].Notify? ==>
      lo <= events[i].snapshot.distanceDm <= hi
  }

  /** The distances of the emitted records never go down. */
  predicate DistancesNonDecreasing(events: seq<Event>)
  {
    forall i, j :: 0 <= i < j < |events| && events[i].Notify? && events[j].Notify? ==>
      events[i].snapshot.distanceDm <= events[j].snapshot.distanceDm
  }

  /** Every emitted record lies between the distance before the call and the
      distance after it, and the distances emitted never go down. */
  lemma {:induction false} EmittedDistancesMonotone(next: ParseState, e: Snapshot, data: seq<Byte>)
    ensures DistancesWithin(Run(next, e, data).events, e.distanceDm, Run(next, e, data).e.distanceDm)
    ensures DistancesNonDecreasing(Run(next, e, data).events)
    decreases |data|
  {
    if data != [] {
      var p := Run(next, e, data[..|data| - 1]);
      EmittedDistancesMonotone(next, e, data[..|data| - 1]);
      var s := Step(p.next, p.e, data[|data| - 1]);
      var r := Run(next, e, data);
      assert r.events == p.events + EventSeq(s.event);
      assert r.e == s.e && e.distanceDm <= p.e.distanceDm <= s.e.distanceDm;
      forall i | 0 <= i < |r.events| && r.events[i].Notify?
        ensures e.distanceDm <= r.events[i].snapshot.distanceDm <= r.e.distanceDm
        ensures i < |p.events| || p.e.distanceDm <= r.events[i].snapshot.distanceDm
      {
        if i < |p.events| {
          assert r.events[i] == p.events[i];
        } else {
          assert s.event.Some? && r.events[i] == s.event.value;
        }
      }
      forall i, j | 0 <= i < j < |r.events| && r.events[i].Notify? && r.events[j].Notify?
        ensures r.events[i].snapshot.distanceDm <= r.events[j].snapshot.distanceDm
      {
        assert r.events[i] == p.events[i];
        if j < |p.events| {
          assert r.events[j] == p.events[j];
        }
      }
    }
  }

  // ---------------------------------------------------------------------------
  // The messages of the protocol, each from the command state
  // ---------------------------------------------------------------------------

  /** `0xFE, c`: the distance grows by exactly `c` and the parser is back in
      CMD; a zero byte also sets stroke rate and speed to 0 and emits exactly
      one snapshot, a nonzero byte emits nothing and leaves them alone. */
  lemma DistanceMessage(e: Snapshot, c: Byte)
    ensures var r := Run(Cmd, e, [DistanceOp, c]);
      && r.next == Cmd
      && r.e.distanceDm == e.distanceDm + c
      && (c == 0 ==> r.e.strokesPerMin == Some(0) && r.e.speedDmS == Some(0) && r.events == [Notify(r.e)])
      && (c != 0 ==> r.e.strokesPerMin == e.strokesPerMin && r.e.speedDmS == e.speedDmS && r.events == [])
  {
    RunCons(Cmd, e, DistanceOp, [c]);
    RunOne(DistanceDm, e, c);
  }

  /** `0xFF, r`: the stroke rate is stored, nothing is emitted, and the parser
      waits for the speed byte. */
  lemma RateByteAlone(e: Snapshot, rate: Byte)
    ensures Run(Cmd, e, [RateSpeedOp, rate]) == RunResult(SpeedDmS, e.(strokesPerMin := Some(rate)), [])
  {
    RunCons(Cmd, e, RateSpeedOp, [rate]);
    RunOne(StrokesPerMin, e, rate);
  }

  /** `0xFF, r, s`: one snapshot is emitted, carrying the rate `r`, the speed
      `s` and the current distance, and the parser is back in CMD. */
  lemma RateSpeedMessage(e: Snapshot, rate: Byte, speed: Byte)
    ensures var e' := Snapshot(e.distanceDm, Some(rate), Some(speed));
      Run(Cmd, e, [RateSpeedOp, rate, speed]) == RunResult(Cmd, e', [Notify(e')])
  {
    RateByteAlone(e, rate);
    RunAppend(Cmd, e, [RateSpeedOp, rate], [speed]);
    assert [RateSpeedOp, rate] + [speed] == [RateSpeedOp, rate, speed];
    RunOne(SpeedDmS, e.(strokesPerMin := Some(rate)), speed);
  }

  /** `0xFC`: the record is unchanged, nothing is emitted, the parser stays in CMD. */
  lemma StrokeEndMessage(e: Snapshot)
    ensures Run(Cmd, e, [StrokeEndOp]) == RunResult(Cmd, e, [])
  {
    RunOne(Cmd, e, StrokeEndOp);
  }

  /** `0xFB, b`: the heart rate byte is discarded; the record is unchanged,
      nothing is emitted, the parser is back in CMD. */
  lemma HeartRateMessage(e: Snapshot, bpm: Byte)
    ensures Run(Cmd, e, [HeartRateOp, bpm]) == RunResult(Cmd, e, [])
  {
    RunCons(Cmd, e, HeartRateOp, [bpm]);
    RunOne(Bpm, e, bpm);
  }

  /** A byte that is not an opcode, read in CMD, is skipped: the parser stays in
      CMD, the record is unchanged and nothing is emitted. */
  lemma UnknownCommand(e: Snapshot, c: Byte)
    requires !IsOpcode(c)
    ensures Run(Cmd, e, [c]) == RunResult(Cmd, e, [])
  {
    RunOne(Cmd, e, c);
  }

  /** Any run of non-opcode bytes in front of a stream read in CMD gives the same
      final state, record and emitted sequence as the stream alone. */
  lemma {:induction false} UnknownCommandsSkipped(e: Snapshot, junk: seq<Byte>, data: seq<Byte>)
    requires forall i :: 0 <= i < |junk| ==> !IsOpcode(junk[i])
    ensures Run(Cmd, e, junk + data) == Run(Cmd, e, data)
    decreases |junk|
  {
    if junk == [] {
      assert junk + data == data;
    } else {
      RunCons(Cmd, e, junk[0], junk[1..] + data);
      assert [junk[0]] + (junk[1..] + data) == junk + data;
      assert Step(Cmd, e, junk[0]) == StepResult(Cmd, e, None);
      UnknownCommandsSkipped(e, junk[1..], data);
      var q := Run(Cmd, e, junk[1..] + data);
      assert EventSeq(None) + q.events == q.events;
    }
  }

  // ---------------------------------------------------------------------------
  // Distance is cumulative
  // ---------------------------------------------------------------------------

  /** The byte stream of one distance message per increment in `cs`. */
  function DistanceMessages(cs: seq<Byte>): (r: seq<Byte>)
  {
    if cs == [] then [] else DistanceMessages(cs[..|cs| - 1]) + [DistanceOp, cs[|cs| - 1]]
  }

  function Sum(cs: seq<Byte>): (r: nat)
  {
    if cs == [] then 0 else Sum(cs[..|cs| - 1]) + cs[|cs| - 1]
  }

  function CountZeros(cs: seq<Byte>): (r: nat)
  {
    if cs == [] then 0 else CountZeros(cs[..|cs| - 1]) + (if cs[|cs| - 1] == 0 then 1 else 0)
  }

  /** What a distance message with increment `c` emits once the distance is
      `d`: the idle snapshot when `c` is zero, nothing otherwise. */
  function IdleEvents(d: nat, c: Byte): (r: seq<Event>)
  {
    if c == 0 then [Notify(Snapshot(d, Some(0), Some(0)))] else []
  }

  /** The running distance and the emitted events of a plain distance counter
      that starts at `d`, adds each increment of `cs` in turn, and emits the idle
      snapshot after each zero increment: the reference the decoder is compared
      with. */
  datatype Tally = Tally(distance: nat, events: seq<Event>)

  function DistanceTally(d: nat, cs: seq<Byte>): (r: Tally)
  {
    if cs == [] then Tally(d, [])
    else
      var t := DistanceTally(d, cs[..|cs| - 1]);
      var moved := t.distance + cs[|cs| - 1];
      Tally(moved, t.events + IdleEvents(moved, cs[|cs| - 1]))
  }

  /** The counter's distance is the start plus the sum of the increments. */
  lemma {:induction false} TallyDistance(d: nat, cs: seq<Byte>)
    ensures DistanceTally(d, cs).distance == d + Sum(cs)
  {
    if cs != [] {
      TallyDistance(d, cs[..|cs| - 1]);
    }
  }

  /** Some increment is zero exactly when the count of zero increments is positive. */
  lemma {:induction false} CountZerosPositive(cs: seq<Byte>)
    ensures CountZeros(cs) > 0 <==> 0 in cs
  {
    if cs != [] {
      var init := cs[..|cs| - 1];
      CountZerosPositive(init);
      assert cs == init + [cs[|cs| - 1]];
    }
  }

  lemma DistanceMessagesSnoc(e: Snapshot, cs: seq<Byte>)
    requires cs != []
    ensures var p := Run(Cmd, e, DistanceMessages(cs[..|cs| - 1]));
      var q := Run(p.next, p.e, [DistanceOp, cs[|cs| - 1]]);
      Run(Cmd, e, DistanceMessages(cs)) == RunResult(q.next, q.e, p.events + q.events)
  {
    RunAppend(Cmd, e, DistanceMessages(cs[..|cs| - 1]), [DistanceOp, cs[|cs| - 1]]);
  }

  /** A series of distance messages adds up all increments, emits once per zero
      increment, and has reset stroke rate and speed to 0 if and only if some
      increment was zero. */
  lemma {:induction false} DistanceAccumulates(e: Snapshot, cs: seq<Byte>)
    ensures var r := Run(Cmd, e, DistanceMessages(cs));
      && r.next == Cmd
      && r.e.distanceDm == e.distanceDm + Sum(cs)
      && |r.events| == CountZeros(cs)
      && r.e.strokesPerMin == (if CountZeros(cs) > 0 then Some(0) else e.strokesPerMin)
      && r.e.speedDmS == (if CountZeros(cs) > 0 then Some(0) else e.speedDmS)
    decreases |cs|
  {
    if cs != [] {
      var init, c := cs[..|cs| - 1], cs[|cs| - 1];
      DistanceAccumulates(e, init);
      DistanceMessagesSnoc(e, cs);
      var p := Run(Cmd, e, DistanceMessages(init));
      DistanceMessage(p.e, c);
      var q := Run(p.next, p.e, [DistanceOp, c]);
      var r := Run(Cmd, e, DistanceMessages(cs));
      assert r.next == q.next && r.e == q.e && r.events == p.events + q.events;
    }
  }

  /** What one distance message read in CMD emits, once the distance is `d`. */
  lemma DistanceMessageEvents(e: Snapshot, c: Byte, d: nat)
    requires d == e.distanceDm + c
    ensures Run(Cmd, e, [DistanceOp, c]).events == IdleEvents(d, c)
  {
    DistanceMessage(e, c);
    var r := Run(Cmd, e, [DistanceOp, c]);
    if c == 0 {
      assert r.e == Snapshot(d, Some(0), Some(0));
    } else {
      assert r.events == [];
    }
  }

  /** A distance message read in CMD after any stream: its events follow the
      stream's, and they are the snapshot with the new distance and stroke rate
      and speed 0 when the increment is zero, and nothing otherwise. */
  lemma DistanceMessageAfter(e: Snapshot, data: seq<Byte>, c: Byte, d: nat)
    requires Run(Cmd, e, data).next == Cmd
    requires d == Run(Cmd, e, data).e.distanceDm + c
    ensures Run(Cmd, e, data + [DistanceOp, c]).events
      == Run(Cmd, e, data).events + IdleEvents(d, c)
  {
    RunAppend(Cmd, e, data, [DistanceOp, c]);
    DistanceMessageEvents(Run(Cmd, e, data).e, c, d);
  }

  /** What a series of distance messages emits: exactly the events of the
      plain distance counter, that is one snapshot per zero increment, in order,
      each carrying the distance accumulated up to that message with stroke rate
      and speed 0. */
  lemma {:induction false} DistanceEmissions(e: Snapshot, cs: seq<Byte>)
    ensures Run(Cmd, e, DistanceMessages(cs)).events == DistanceTally(e.distanceDm, cs).events
    decreases |cs|
  {
    if cs != [] {
      var init, c := cs[..|cs| - 1], cs[|cs| - 1];
      var p := Run(Cmd, e, DistanceMessages(init));
      var t := DistanceTally(e.distanceDm, init);
      assert p.next == Cmd && p.e.distanceDm == t.distance by {
        DistanceAccumulates(e, init);
        TallyDistance(e.distanceDm, init);
      }
      assert DistanceMessages(cs) == DistanceMessages(init) + [DistanceOp, c];
      DistanceMessageAfter(e, DistanceMessages(init), c, t.distance + c);
      DistanceEmissions(e, init);
    }
  }

  /** The stream `FE 05 FE 03 FE 00` from the constructor's state: the zero byte
      emits one snapshot with distance 8 and stroke rate and speed forced to 0. */
  lemma IdleExample()
    ensures Run(Cmd, Initial(), [0xFE, 5, 0xFE, 3, 0xFE, 0]) ==
      RunResult(Cmd, Snapshot(8, Some(0), Some(0)), [Notify(Snapshot(8, Some(0), Some(0)))])
  {
    var e0 := Initial();
    var e1 := Snapshot(5, None, None);
    var e2 := Snapshot(8, None, None);
    var e3 := Snapshot(8, Some(0), Some(0));
    DistanceMessage(e0, 5);
    assert Run(Cmd, e0, [0xFE, 5]) == RunResult(Cmd, e1, []);
    DistanceMessage(e1, 3);
    assert Run(Cmd, e1, [0xFE, 3]) == RunResult(Cmd, e2, []);
    DistanceMessage(e2, 0);
    assert Run(Cmd, e2, [0xFE, 0]) == RunResult(Cmd, e3, [Notify(e3)]);
    RunAppend(Cmd, e0, [0xFE, 5], [0xFE, 3]);
    assert [0xFE, 5] + [0xFE, 3] == [0xFE, 5, 0xFE, 3];
    assert Run(Cmd, e0, [0xFE, 5, 0xFE, 3]) == RunResult(Cmd, e2, []);
    RunAppend(Cmd, e0, [0xFE, 5, 0xFE, 3], [0xFE, 0]);
    assert [0xFE, 5, 0xFE, 3] + [0xFE, 0] == [0xFE, 5, 0xFE, 3, 0xFE, 0];
  }
}
