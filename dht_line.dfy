/** The data line of a DHT sensor as the drivers see it: a pin that is either
    an output the host drives or an input it samples, a clock, and the
    polling loops that count how long the line stays at one level.

    An input pin is modelled by the levels successive queries observe: every
    `is_low` / `is_high` query consumes one sample, and a query with no sample
    left is a failed read of the pin. */
module DhtLine {
  import opened Common

  /** The host's clock, in milliseconds: `now` is what the time function
      reports, `Sleep` is the delay function, and every sleep is logged. */
  class Clock {
    var now: nat
    var sleeps: seq<nat>

    constructor (start: nat)
      ensures now == start && sleeps == []
    {
      now := start;
      sleeps := [];
    }

    method Sleep(duration: nat)
      modifies this
      ensures now == old(now) + duration
      ensures sleeps == old(sleeps) + [duration]
    {
      now := now + duration;
      sleeps := sleeps + [duration];
    }
  }

  /** The data pin: the levels it will show when sampled, and the log of the
      levels the host has driven on it (true is high). */
  datatype Pin = Pin(levels: seq<bool>, driven: seq<bool>)

  /** Driving the pin to a level: set_low / set_high, or switching it into
      output mode at that level. */
  function Drive(pin: Pin, level: bool): (out: Pin)
    ensures out.levels == pin.levels && out.driven == pin.driven + [level]
  {
    pin.(driven := pin.driven + [level])
  }

  /** Modulus of the read-ACK watchdog: the elapsed time is checked every
      1000 counts. */
  const WatchdogCounts := 1000

  /** The limit a polling loop applies to its counter after each increment:
      a fixed timeout, the ACK watchdog (an oracle saying whether more than
      the ACK timeout has elapsed when the counter has the given value), or
      none. */
  datatype Limit = Timeout(max: nat) | Watchdog(elapsed: nat -> bool) | Unbounded

  predicate Stops(limit: Limit, counter: nat)
  {
    match limit
    case Timeout(max) => counter > max
    case Watchdog(elapsed) => counter % WatchdogCounts == 0 && elapsed(counter)
    case Unbounded => false
  }

  /** How a polling loop ended: the level changed with the counter at
      `counter`, the loop's limit stopped it, or reading the pin failed. */
  datatype Poll = Changed(counter: nat) | Stopped | Failed

  /** `while pin.is_<level>()? { counter += 1; if limit stops { return } }`
      over the samples `levels`, counting from `counter`: the outcome and
      the samples left. */
  function PollSpec(levels: seq<bool>, level: bool, counter: nat, limit: Limit): (r: (Poll, seq<bool>))
    ensures |r.1| <= |levels|
    ensures r.0.Changed? ==> counter <= r.0.counter && r.0.counter + |r.1| < counter + |levels|
    ensures r.0.Failed? ==> r.1 == []
    decreases |levels|
  {
    if |levels| == 0 then (Failed, levels)
    else if levels[0] != level then (Changed(counter), levels[1..])
    else if Stops(limit, counter + 1) then (Stopped, levels[1..])
    else PollSpec(levels[1..], level, counter + 1, limit)
  }

  /** One polling loop of the source. */
  method PollWhile(levels: seq<bool>, level: bool, start: nat, limit: Limit)
    returns (outcome: Poll, rest: seq<bool>)
    ensures (outcome, rest) == PollSpec(levels, level, start, limit)
  {
    var counter := start;
    rest := levels;
    while true
      invariant PollSpec(rest, level, counter, limit) == PollSpec(levels, level, start, limit)
      decreases |rest|
    {
      if |rest| == 0 {
        return Failed, rest;
      }
      var sample := rest[0];
      rest := rest[1..];
      if sample != level {
        return Changed(counter), rest;
      }
      counter := counter + 1;
      if Stops(limit, counter) {
        return Stopped, rest;
      }
    }
  }

  /** `count` samples at `level`. */
  function Run(level: bool, count: nat): (s: seq<bool>)
    ensures |s| == count && forall i :: 0 <= i < count ==> s[i] == level
  {
    seq(count, _ => level)
  }

  /** A run of `n` samples at `level` ended by the opposite level is counted
      as `n` when the limit lets every count through. */
  lemma {:induction false} PollRun(n: nat, level: bool, counter: nat, limit: Limit, rest: seq<bool>)
    requires forall k :: counter < k <= counter + n ==> !Stops(limit, k)
    ensures PollSpec(Run(level, n) + [!level] + rest, level, counter, limit)
              == (Changed(counter + n), rest)
  {
    var levels := Run(level, n) + [!level] + rest;
    if n == 0 {
      assert levels[1..] == rest;
    } else {
      assert levels[1..] == Run(level, n - 1) + [!level] + rest;
      PollRun(n - 1, level, counter + 1, limit, rest);
    }
  }

  /** A run that reaches a count the limit stops at is cut short there. */
  lemma {:induction false} PollRunStopped(n: nat, level: bool, counter: nat, limit: Limit, rest: seq<bool>)
    requires 0 < n && Stops(limit, counter + n)
    requires forall k :: counter < k < counter + n ==> !Stops(limit, k)
    ensures PollSpec(Run(level, n) + rest, level, counter, limit).0 == Stopped
  {
    var levels := Run(level, n) + rest;
    if n > 1 {
      assert levels[1..] == Run(level, n - 1) + rest;
      PollRunStopped(n - 1, level, counter + 1, limit, rest);
    }
  }

  /** A bit as read_bit_with_timeout counts it: the low run then the high
      run, the same counter for both, under the same timeout. */
  function BitSpec(levels: seq<bool>, timeout: nat): (r: (Poll, seq<bool>))
    ensures |r.1| <= |levels|
    ensures r.0.Changed? ==> r.0.counter < |levels| - |r.1|
  {
    var low := PollSpec(levels, false, 0, Timeout(timeout));
    if !low.0.Changed? then low
    else
      PollSpec(low.1, true, low.0.counter, Timeout(timeout))
  }

  /** The samples of a bit pulse counted as `low + high` ticks: `low` low
      samples, `high` + 1 high samples and the first low sample of what
      follows, which the high loop consumes. */
  function PulseSamples(low: nat, high: nat): seq<bool>
  {
    Run(false, low) + [true] + Run(true, high) + [false]
  }

  /** A pulse within the timeout is counted as its length. */
  lemma BitOfPulse(low: nat, high: nat, timeout: nat, rest: seq<bool>)
    requires low + high <= timeout
    ensures BitSpec(PulseSamples(low, high) + rest, timeout) == (Changed(low + high), rest)
  {
    var levels := PulseSamples(low, high) + rest;
    assert levels == Run(false, low) + [true] + (Run(true, high) + [false] + rest);
    PollRun(low, false, 0, Timeout(timeout), Run(true, high) + [false] + rest);
    PollRun(high, true, low, Timeout(timeout), rest);
  }

  /** A pulse longer than the timeout stops the bit's polling loops. */
  lemma LongPulseTimesOut(low: nat, high: nat, timeout: nat, rest: seq<bool>)
    requires low + high > timeout
    ensures BitSpec(PulseSamples(low, high) + rest, timeout).0 == Stopped
  {
    var limit := Timeout(timeout);
    var afterLow := Run(true, high) + [false] + rest;
    if low > timeout {
      var n := timeout + 1;
      assert PulseSamples(low, high) + rest == Run(false, n) + (Run(false, low - n) + [true] + afterLow);
      PollRunStopped(n, false, 0, limit, Run(false, low - n) + [true] + afterLow);
    } else {
      assert PulseSamples(low, high) + rest == Run(false, low) + [true] + afterLow;
      PollRun(low, false, 0, limit, afterLow);
      var n := timeout + 1 - low;
      assert afterLow == Run(true, n) + (Run(true, high - n) + [false] + rest);
      PollRunStopped(n, true, low, limit, Run(true, high - n) + [false] + rest);
    }
  }

  /** The bits of a frame, each sampled as one BitSpec after the other: their
      tick counts, or how the first pulse that did not complete ended. */
  function SampleBitsSpec(levels: seq<bool>, timeout: nat, n: nat): (r: (Result<seq<nat>, Poll>, seq<bool>))
    ensures |r.1| <= |levels|
    ensures r.0.Ok? ==> |r.0.value| == n && forall i :: 0 <= i < n ==> r.0.value[i] < |levels|
    ensures r.0.Err? ==> !r.0.error.Changed?
  {
    if n == 0 then (Ok([]), levels)
    else
      var before := SampleBitsSpec(levels, timeout, n - 1);
      if before.0.Err? then before
      else
        var bit := BitSpec(before.1, timeout);
        if !bit.0.Changed? then (Err(bit.0), bit.1)
        else (Ok(before.0.value + [bit.0.counter]), bit.1)
  }

  /** Sampling one more bit after n - 1 completed ones appends its count. */
  lemma SampleBitsStep(levels: seq<bool>, timeout: nat, n: nat, ticks: seq<nat>, middle: seq<bool>,
                       count: nat, rest: seq<bool>)
    requires n > 0
    requires SampleBitsSpec(levels, timeout, n - 1).0 == Ok(ticks)
    requires SampleBitsSpec(levels, timeout, n - 1).1 == middle
    requires BitSpec(middle, timeout).0 == Changed(count) && BitSpec(middle, timeout).1 == rest
    ensures SampleBitsSpec(levels, timeout, n).0 == Ok(ticks + [count])
    ensures SampleBitsSpec(levels, timeout, n).1 == rest
  {
  }

  /** Once a bit fails to sample, the rest of the frame is not sampled. */
  lemma {:induction false} SampleBitsStaysFailed(levels: seq<bool>, timeout: nat, i: nat, n: nat)
    requires i <= n && SampleBitsSpec(levels, timeout, i).0.Err?
    ensures SampleBitsSpec(levels, timeout, n) == SampleBitsSpec(levels, timeout, i)
  {
    if i < n {
      SampleBitsStaysFailed(levels, timeout, i, n - 1);
    }
  }

  /** The samples of the sensor's ACK: the line still high for `high`
      samples after the host released it, the sensor's low pulse and high
      pulse, and the first low sample of the first bit. */
  function AckSamples(high: nat, low: nat, response: nat): (s: seq<bool>)
    ensures |s| == high + low + response + 3
  {
    Run(true, high) + [false] + Run(false, low) + [true] + Run(true, response) + [false]
  }

  /** The samples of a sequence of bit pulses: a zero bit as the pulse
      `zero`, a one bit as the pulse `one` (each a (low, high) pair). */
  function FramePulses(bits: seq<bool>, zero: (nat, nat), one: (nat, nat)): seq<bool>
  {
    if |bits| == 0 then []
    else
      var last := if bits[|bits| - 1] then one else zero;
      FramePulses(bits[..|bits| - 1], zero, one) + PulseSamples(last.0, last.1)
  }

  /** The tick count of every bit of `bits` under the pulses `zero` and `one`. */
  function PulseTicks(bits: seq<bool>, zero: (nat, nat), one: (nat, nat)): (ticks: seq<nat>)
    ensures |ticks| == |bits|
  {
    if |bits| == 0 then []
    else
      var last := if bits[|bits| - 1] then one else zero;
      PulseTicks(bits[..|bits| - 1], zero, one) + [last.0 + last.1]
  }

  /** Each bit's tick count is the length of its pulse. */
  lemma {:induction false} PulseTicksAt(bits: seq<bool>, zero: (nat, nat), one: (nat, nat), i: nat)
    requires i < |bits|
    ensures PulseTicks(bits, zero, one)[i] == if bits[i] then one.0 + one.1 else zero.0 + zero.1
  {
    if i < |bits| - 1 {
      PulseTicksAt(bits[..|bits| - 1], zero, one, i);
    }
  }

  /** Sampling the pulses of `bits` counts zero bits as `zero.0 + zero.1`
      ticks and one bits as `one.0 + one.1` ticks. */
  lemma {:induction false} SampleFramePulses(bits: seq<bool>, zero: (nat, nat), one: (nat, nat),
                                            timeout: nat, rest: seq<bool>)
    requires zero.0 + zero.1 <= timeout && one.0 + one.1 <= timeout
    ensures SampleBitsSpec(FramePulses(bits, zero, one) + rest, timeout, |bits|).0
      == Ok(PulseTicks(bits, zero, one))
    ensures SampleBitsSpec(FramePulses(bits, zero, one) + rest, timeout, |bits|).1 == rest
  {
    var n := |bits|;
    if n > 0 {
      var prefix := bits[..n - 1];
      var last := if bits[n - 1] then one else zero;
      var pulse := PulseSamples(last.0, last.1);
      var levels := FramePulses(bits, zero, one) + rest;
      assert levels == FramePulses(prefix, zero, one) + (pulse + rest);
      SampleFramePulses(prefix, zero, one, timeout, pulse + rest);
      BitOfPulse(last.0, last.1, timeout, rest);
      var ticks := PulseTicks(prefix, zero, one);
      SampleBitsStep(levels, timeout, n, ticks, pulse + rest, last.0 + last.1, rest);
      assert PulseTicks(bits, zero, one) == ticks + [last.0 + last.1];
    } else {
      assert FramePulses(bits, zero, one) + rest == rest;
      assert PulseTicks(bits, zero, one) == [];
    }
  }
}
