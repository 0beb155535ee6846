/** The single telemetry record the WaterRower S4 decoder keeps and emits.

    In the JavaScript object the record starts as `{distance_dm: 0}`; the keys
    `strokes_per_min` and `speed_dm_s` are absent until the decoder first writes
    them, which is modelled by `Option`.
 */
module Telemetry {

  /** One value read from the serial port's data buffer. */
  type Byte = x: int | 0 <= x < 256

  datatype Option<+T> = None | Some(value: T)

  /** A point-in-time value of the record `self.e`.
      distanceDm    -- key `distance_dm`, cumulative distance in 0.1 m units;
                       unbounded, as the source adds bytes to a number with no cap
      strokesPerMin -- key `strokes_per_min`, absent until first written
      speedDmS      -- key `speed_dm_s`, speed in 0.1 m/s units, absent until first written
   */
  datatype Snapshot = Snapshot(distanceDm: nat, strokesPerMin: Option<nat>, speedDmS: Option<nat>)

  /** The record as the S4 constructor creates it. */
  function Initial(): (r: Snapshot)
  {
    Snapshot(0, None, None)
  }
}
