/**
 * A bus capture as the decoders receive it: parallel columns of timestamps (whole nanoseconds)
 * and sample values, and the ways decoding a capture can fail.
 */
module Captures {

  /** One row of the capture: its timestamp and its value (a MOSI byte for the single-line
      analyzer, a wide value for the quad-I/O analyzer). */
  datatype Sample = Sample(time: int, value: int)

  /** The two recognised capture shapes, fixed once per run. */
  datatype Capture = MosiCapture(samples: seq<Sample>) | ValueCapture(samples: seq<Sample>)

  /** How decoding raises instead of returning accesses. */
  datatype DecodeError =
    | EmptyCapture              // the first timestamp is read before either loop starts
    | ReadAtLastSample(index: nat)  // a read opcode is the final sample: its end time is out of range
    | AddressNotBytes(index: nat)   // an address sample of a read is not a byte value
    | NoReadOpened              // the value stream holds no read, so there is nothing to finalise

  function Values(s: seq<Sample>): (r: seq<int>)
    ensures |r| == |s|
    ensures forall i | 0 <= i < |s| :: r[i] == s[i].value
  {
    seq(|s|, i requires 0 <= i < |s| => s[i].value)
  }

  function Stamps(s: seq<Sample>): (r: seq<int>)
    ensures |r| == |s|
    ensures forall i | 0 <= i < |s| :: r[i] == s[i].time
  {
    seq(|s|, i requires 0 <= i < |s| => s[i].time)
  }

  /** Rows built from a timestamp column and a value column of the same length. */
  function Zip(times: seq<int>, values: seq<int>): (s: seq<Sample>)
    requires |times| == |values|
    ensures |s| == |times|
    ensures forall i | 0 <= i < |s| :: s[i] == Sample(times[i], values[i])
  {
    seq(|times|, i requires 0 <= i < |times| => Sample(times[i], values[i]))
  }

  lemma ValuesOfZip(times: seq<int>, values: seq<int>)
    requires |times| == |values|
    ensures Values(Zip(times, values)) == values
  {
  }

  lemma StampsOfZip(times: seq<int>, values: seq<int>)
    requires |times| == |values|
    ensures Stamps(Zip(times, values)) == times
  {
  }

  /** A latency of a read opened at sample `i` is measured from time zero or from a timestamp
      before `i`. */
  predicate LatencyFromEarlier(s: seq<Sample>, i: int, start: int, latency: int) {
    latency == start || exists j :: 0 <= j < i && j < |s| && latency == start - s[j].time
  }

  /** Every timestamp is later than the ones before it. */
  predicate StrictlyIncreasing(times: seq<int>) {
    forall i, j | 0 <= i < j < |times| :: times[i] < times[j]
  }

  /** Timestamps never decrease along the capture. */
  predicate Monotonic(s: seq<Sample>) {
    forall i, j | 0 <= i <= j < |s| :: s[i].time <= s[j].time
  }
}
