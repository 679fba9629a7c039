/** The decoded measurement, `Particular::Sample`. */
module Samples {
  import opened Wire

  /** Capture time in milliseconds since the epoch, UTC; it comes from the
      clock at decode time, never from the wire. */
  type Time = int

  /** Number of numeric fields of a sample. */
  const FIELD_COUNT := 12

  /** One measurement, fields in the order the struct declares them. */
  datatype Sample = Sample(
    time: Time,
    pm1_0Standard: uint16, pm2_5Standard: uint16, pm10Standard: uint16,
    pm1_0Env: uint16, pm2_5Env: uint16,
    concentrationUnit: uint16,
    particle03um: uint16, particle05um: uint16, particle10um: uint16,
    particle25um: uint16, particle50um: uint16, particle100um: uint16)

  /** The numeric fields in declared order, pm1_0Standard first. */
  function Fields(s: Sample): (fs: seq<uint16>)
    ensures |fs| == FIELD_COUNT
  {
    [s.pm1_0Standard, s.pm2_5Standard, s.pm10Standard,
     s.pm1_0Env, s.pm2_5Env,
     s.concentrationUnit,
     s.particle03um, s.particle05um, s.particle10um,
     s.particle25um, s.particle50um, s.particle100um]
  }

  /** `Sample.new(time, *words.first(12))`: the leading 12 words become the
      fields in declared order; any further words are dropped. */
  function ToSample(time: Time, words: seq<uint16>): (s: Sample)
    requires |words| >= FIELD_COUNT
    ensures s.time == time && Fields(s) == words[..FIELD_COUNT]
  {
    Sample(time, words[0], words[1], words[2], words[3], words[4], words[5],
           words[6], words[7], words[8], words[9], words[10], words[11])
  }

  /** A sample is determined by its time and its fields. */
  lemma FieldsDetermineSample(s: Sample)
    ensures ToSample(s.time, Fields(s)) == s
  {
  }
}
