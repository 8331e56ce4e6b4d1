/** The DHT11/DHT22 driver: options, the shared driver core (DhtBase) that
    requests a frame, samples it and decodes it, and the per-sensor driver
    that retries bad reads. */
module Dhtxx {
  import opened Common
  import opened DhtLine
  import opened DhtThreshold
  import opened DhtFrame

  datatype DhtError = Wrapped | InvalidArgument | BadData | NoResponse

  /** The two sensors the driver is instantiated for. */
  datatype Variant = Dht11 | Dht22

  /** A decoded reading. The DHT11 sends whole and tenth parts; the DHT22
      sends humidity and temperature in tenths, the temperature in sign and
      magnitude form (bit 15 is the sign). */
  datatype Response =
    | Dht11Response(humidity: u8, humidityDecimal: u8, temperature: u8, temperatureDecimal: u8)
    | Dht22Response(humidityX10: u16, temperatureX10: u16)

  function VariantOf(r: Response): Variant
  {
    if r.Dht11Response? then Dht11 else Dht22
  }

  function FromRawBytes(variant: Variant, bytes: seq<u8>): (r: Response)
    requires |bytes| == 4
    ensures VariantOf(r) == variant
  {
    match variant
    case Dht11 => Dht11Response(bytes[0], bytes[1], bytes[2], bytes[3])
    case Dht22 => Dht22Response(bytes[0] as int * 0x100 + bytes[1], bytes[2] as int * 0x100 + bytes[3])
  }

  /** The four payload bytes a sensor sends for a reading. */
  function RawBytes(r: Response): (bytes: seq<u8>)
    ensures |bytes| == 4
  {
    match r
    case Dht11Response(h, hd, t, td) => [h, hd, t, td]
    case Dht22Response(h, t) => [h / 0x100, h % 0x100, t / 0x100, t % 0x100]
  }

  /** Decoding is a bijection between payloads and readings of a variant. */
  lemma FromRawBytesRoundTrip(variant: Variant, bytes: seq<u8>, r: Response)
    requires |bytes| == 4
    ensures RawBytes(FromRawBytes(variant, bytes)) == bytes
    ensures VariantOf(r) == variant ==> FromRawBytes(variant, RawBytes(r)) == r
  {
  }

  /** The DHT22 temperature in signed tenths of a degree. */
  function SignedTenths(t: u16): int
  {
    if t >= 0x8000 then -(t % 0x8000) else t
  }

  predicate IsValid(r: Response)
  {
    match r
    case Dht11Response(h, hd, t, td) =>
      ((h < 100 && hd < 10) || (h == 100 && hd == 0))
      && ((t < 75 && td < 10) || (t == 75 && td == 0))
    case Dht22Response(h, t) =>
      var negative := t >= 0x8000;
      var temperatureValid := (negative && t % 0x8000 < 601) || (!negative && t < 1501);
      h <= 1000 && temperatureValid
  }

  /** A DHT11 reading is valid when both decimals are single digits, the
      humidity is at most 100.0 and the temperature at most 75.0; a DHT22
      reading when the humidity is at most 100.0 and the temperature between
      -60.0 and 150.0. */
  lemma IsValidRanges(r: Response)
    ensures r.Dht11Response? ==>
      (IsValid(r) <==>
        && r.humidityDecimal < 10 && r.temperatureDecimal < 10
        && r.humidity * 10 + r.humidityDecimal <= 1000
        && r.temperature * 10 + r.temperatureDecimal <= 750)
    ensures r.Dht22Response? ==>
      (IsValid(r) <==> r.humidityX10 <= 1000 && -600 <= SignedTenths(r.temperatureX10) <= 1500)
  {
  }

  const MinDht11ReadInterval := 1000
  const MinDht22ReadInterval := 2000

  /** The sensor's minimum read interval, in milliseconds. */
  function MinReadInterval(variant: Variant): nat
  {
    match variant
    case Dht11 => MinDht11ReadInterval
    case Dht22 => MinDht22ReadInterval
  }

  /** How long the host pulls the line low to request a frame, in ms. */
  function PingDuration(variant: Variant): nat
  {
    match variant
    case Dht11 => 18
    case Dht22 => 1
  }

  datatype Options = Options(minReadInterval: nat, maxAttempts: u8)

  function DefaultOptions(variant: Variant): Options
  {
    Options(MinReadInterval(variant), 1)
  }

  predicate ValidOptions(variant: Variant, options: Options)
  {
    options.minReadInterval >= MinReadInterval(variant) && options.maxAttempts >= 1
  }

  /** The options check of `new`: no options means the defaults; given
      options are accepted exactly when they are valid. */
  function CheckOptions(variant: Variant, options: Option<Options>): (r: Result<Options, DhtError>)
    ensures r.Ok? ==> ValidOptions(variant, r.value)
    ensures options.None? ==> r == Ok(DefaultOptions(variant))
    ensures options.Some? ==> (r.Ok? <==> ValidOptions(variant, options.value))
    ensures options.Some? && r.Ok? ==> r.value == options.value
    ensures r.Err? ==> r.error == InvalidArgument
  {
    if options.None? then Ok(DefaultOptions(variant))
    else
      var options := options.value;
      if options.minReadInterval < MinReadInterval(variant) || options.maxAttempts < 1 then
        Err(InvalidArgument)
      else Ok(options)
  }

  /** The error a polling loop that did not see the level change reports. */
  function PollError(p: Poll, stopped: DhtError): DhtError
  {
    if p.Failed? then Wrapped else stopped
  }

  /** read_ack: high until the sensor pulls low, its low pulse, its high
      pulse; the first two under the watchdog. */
  function AckSpec(levels: seq<bool>, elapsed: nat -> bool): (r: (Result<nat, DhtError>, seq<bool>))
    ensures |r.1| <= |levels|
    ensures r.0.Ok? ==> r.0.value < |levels|
  {
    var first := PollSpec(levels, true, 0, Watchdog(elapsed));
    if !first.0.Changed? then (Err(PollError(first.0, NoResponse)), first.1)
    else
      var second := PollSpec(first.1, false, first.0.counter, Watchdog(elapsed));
      if !second.0.Changed? then (Err(PollError(second.0, NoResponse)), second.1)
      else
        var third := PollSpec(second.1, true, second.0.counter, Unbounded);
        if !third.0.Changed? then (Err(Wrapped), third.1)
        else (Ok(third.0.counter), third.1)
  }

  method ReadAck(levels: seq<bool>, elapsed: nat -> bool) returns (r: Result<nat, DhtError>, rest: seq<bool>)
    ensures (r, rest) == AckSpec(levels, elapsed)
  {
    var first, afterFirst := PollWhile(levels, true, 0, Watchdog(elapsed));
    if !first.Changed? {
      return Err(PollError(first, NoResponse)), afterFirst;
    }
    var second, afterSecond := PollWhile(afterFirst, false, first.counter, Watchdog(elapsed));
    if !second.Changed? {
      return Err(PollError(second, NoResponse)), afterSecond;
    }
    var third;
    third, rest := PollWhile(afterSecond, true, second.counter, Unbounded);
    if !third.Changed? {
      return Err(Wrapped), rest;
    }
    r := Ok(third.counter);
  }

  /** The bit timeout: the ACK count shifted left by two, as a u32. */
  function BitTimeout(ack: nat): (timeout: u32)
    ensures ack < TickLimit ==> timeout == 4 * ack
  {
    (ack * 4) % 0x1_0000_0000
  }

  method ReadBitWithTimeout(levels: seq<bool>, timeout: nat) returns (r: Result<nat, DhtError>, rest: seq<bool>)
    ensures r.Ok? <==> BitSpec(levels, timeout).0.Changed?
    ensures r.Ok? ==> r.value == BitSpec(levels, timeout).0.counter
    ensures r.Err? ==> r.error == PollError(BitSpec(levels, timeout).0, BadData)
    ensures rest == BitSpec(levels, timeout).1
  {
    var low, afterLow := PollWhile(levels, false, 0, Timeout(timeout));
    if !low.Changed? {
      return Err(PollError(low, BadData)), afterLow;
    }
    var high;
    high, rest := PollWhile(afterLow, true, low.counter, Timeout(timeout));
    if !high.Changed? {
      return Err(PollError(high, BadData)), rest;
    }
    r := Ok(high.counter);
  }

  /** read_end_with_timeout: the low end pulse after the last bit. */
  function EndSpec(levels: seq<bool>, timeout: nat): (r: (Result<nat, DhtError>, seq<bool>))
    ensures |r.1| <= |levels|
    ensures r.0.Ok? ==> r.0.value < |levels|
  {
    var end := PollSpec(levels, false, 0, Timeout(timeout));
    if end.0.Changed? then (Ok(end.0.counter), end.1) else (Err(PollError(end.0, BadData)), end.1)
  }

  method ReadEndWithTimeout(levels: seq<bool>, timeout: nat) returns (r: Result<nat, DhtError>, rest: seq<bool>)
    ensures (r, rest) == EndSpec(levels, timeout)
  {
    var end;
    end, rest := PollWhile(levels, false, 0, Timeout(timeout));
    if !end.Changed? {
      return Err(PollError(end, BadData)), rest;
    }
    r := Ok(end.counter);
  }

  /** The loop of receive_data that samples the forty bits into bit_ticks. */
  method ReadFrameBits(levels: seq<bool>, timeout: nat) returns (r: Result<seq<u32>, DhtError>, rest: seq<bool>)
    requires |levels| < TickLimit
    ensures var spec := SampleBitsSpec(levels, timeout, FrameBits);
      && rest == spec.1
      && (r.Ok? <==> spec.0.Ok?)
      && (r.Ok? ==> r.value == spec.0.value)
      && (r.Err? ==> r.error == PollError(spec.0.error, BadData))
  {
    var bitTicks := new u32[FrameBits];
    rest := levels;
    for i := 0 to FrameBits
      invariant SampleBitsSpec(levels, timeout, i) == (Ok(bitTicks[..i]), rest)
    {
      var bit, afterBit := ReadBitWithTimeout(rest, timeout);
      if bit.Err? {
        SampleBitsStaysFailed(levels, timeout, i + 1, FrameBits);
        return Err(bit.error), afterBit;
      }
      ghost var before := bitTicks[..i];
      bitTicks[i] := bit.value;
      rest := afterBit;
      assert bitTicks[..i + 1] == before + [bit.value];
    }
    assert bitTicks[..FrameBits] == bitTicks[..];
    r := Ok(bitTicks[..]);
  }

  /** The checks at the end of receive_data: the parity byte matches the
      payload and the end pulse is not longer than the threshold. */
  function CheckedPayload(bytes: seq<u8>, endTicks: nat, threshold: u32): (r: Result<seq<u8>, DhtError>)
    requires |bytes| == 5
  {
    var payload := bytes[..4];
    if bytes[4] != Checksum(payload) || endTicks > threshold then Err(BadData) else Ok(payload)
  }

  /** The tail of receive_data: the threshold, the five bytes, and the checks
      that the parity byte matches the payload and the end pulse is short. */
  function DecodeFrame(ticks: seq<u32>, endTicks: nat): (r: Result<seq<u8>, DhtError>)
    requires |ticks| == FrameBits && Bounded(ticks)
    ensures r.Ok? <==>
      ParsedFrame(ticks) == FrameBytesOf(ParsedFrame(ticks)[..4]) && endTicks <= TickThreshold(ticks)
    ensures r.Ok? ==> r.value == ParsedFrame(ticks)[..4]
    ensures r.Err? ==> r.error == BadData
  {
    var bytes := ParsedFrame(ticks);
    var payload := bytes[..4];
    assert FrameBytesOf(payload) == payload + [Checksum(payload)];
    assert bytes[4] == Checksum(payload) ==> bytes == payload + [bytes[4]];
    CheckedPayload(bytes, endTicks, TickThreshold(ticks))
  }

  /** receive_data on the samples of the input pin: the payload or the error,
      and the samples left. */
  function ReceiveSpec(levels: seq<bool>, elapsed: nat -> bool): (r: (Result<seq<u8>, DhtError>, seq<bool>))
    requires |levels| < TickLimit
    ensures |r.1| <= |levels|
    ensures r.0.Ok? ==> |r.0.value| == 4
  {
    var ack := AckSpec(levels, elapsed);
    if ack.0.Err? then (Err(ack.0.error), ack.1)
    else
      var timeout := BitTimeout(ack.0.value);
      var bits := SampleBitsSpec(ack.1, timeout, FrameBits);
      if bits.0.Err? then (Err(PollError(bits.0.error, BadData)), bits.1)
      else
        var end := EndSpec(bits.1, timeout);
        if end.0.Err? then (Err(end.0.error), end.1)
        else
          var ticks: seq<u32> := bits.0.value;
          (DecodeFrame(ticks, end.0.value), end.1)
  }

  /** One read attempt of DhtBase::read after the request: receive the
      payload, decode it, and reject readings out of the sensor's range. */
  function AttemptSpec(variant: Variant, levels: seq<bool>, elapsed: nat -> bool)
    : (r: (Result<Response, DhtError>, seq<bool>))
    requires |levels| < TickLimit
    ensures |r.1| <= |levels|
    ensures r.0.Ok? ==> IsValid(r.0.value) && VariantOf(r.0.value) == variant
  {
    var received := ReceiveSpec(levels, elapsed);
    if received.0.Err? then (Err(received.0.error), received.1)
    else
      var response := FromRawBytes(variant, received.0.value);
      (if IsValid(response) then Ok(response) else Err(BadData), received.1)
  }

  /** A result the retrying read tries again after: any error but NoResponse. */
  predicate Retryable(r: Result<Response, DhtError>)
  {
    r.Err? && r.error != NoResponse
  }

  /** `n` attempts one after the other on the same line. */
  function AttemptsSpec(variant: Variant, levels: seq<bool>, elapsed: nat -> bool, n: nat)
    : (r: (seq<Result<Response, DhtError>>, seq<bool>))
    requires |levels| < TickLimit
    ensures |r.0| == n && |r.1| <= |levels|
    decreases n, 0
  {
    if n == 0 then ([], levels) else AttemptsAfter(variant, levels, elapsed, n - 1)
  }

  /** `n` attempts and then one more on the levels they leave. */
  function AttemptsAfter(variant: Variant, levels: seq<bool>, elapsed: nat -> bool, n: nat)
    : (r: (seq<Result<Response, DhtError>>, seq<bool>))
    requires |levels| < TickLimit
    ensures |r.0| == n + 1 && |r.1| <= |levels|
    decreases n, 2
  {
    var before := AttemptsSpec(variant, levels, elapsed, n);
    var attempt := NthAttempt(variant, levels, elapsed, n);
    (before.0 + [attempt.0], attempt.1)
  }

  /** Attempt number `n + 1`: the one made on the levels the first `n` leave. */
  function NthAttempt(variant: Variant, levels: seq<bool>, elapsed: nat -> bool, n: nat)
    : (r: (Result<Response, DhtError>, seq<bool>))
    requires |levels| < TickLimit
    decreases n, 1
  {
    AttemptSpec(variant, AttemptsSpec(variant, levels, elapsed, n).1, elapsed)
  }

  /** Attempt `n + 1` runs on the levels the first `n` leave. */
  lemma AttemptsStep(variant: Variant, levels: seq<bool>, elapsed: nat -> bool, n: nat)
    requires |levels| < TickLimit
    ensures AttemptsSpec(variant, levels, elapsed, n + 1).0
      == AttemptsSpec(variant, levels, elapsed, n).0
         + [AttemptSpec(variant, AttemptsSpec(variant, levels, elapsed, n).1, elapsed).0]
    ensures AttemptsSpec(variant, levels, elapsed, n + 1).1
      == AttemptSpec(variant, AttemptsSpec(variant, levels, elapsed, n).1, elapsed).1
  {
    assert AttemptsSpec(variant, levels, elapsed, n + 1) == AttemptsAfter(variant, levels, elapsed, n);
    assert NthAttempt(variant, levels, elapsed, n)
        == AttemptSpec(variant, AttemptsSpec(variant, levels, elapsed, n).1, elapsed);
  }

  /** The sleep DhtBase::read takes before requesting data: what is left of
      the minimum read interval. */
  function IntervalWait(elapsed: nat, minReadInterval: nat): (waits: seq<nat>)
    ensures elapsed + (if waits == [] then 0 else waits[0]) >= minReadInterval
    ensures |waits| <= 1
  {
    if elapsed < minReadInterval then [minReadInterval - elapsed] else []
  }

  /** The clock's sleeps after `n` attempts of a read that found `before`
      slept and `elapsed` since the last read. */
  function ReadSleeps(before: seq<nat>, elapsed: nat, minReadInterval: nat, ping: nat, n: nat)
    : (sleeps: seq<nat>)
    ensures before <= sleeps && |sleeps| <= |before| + 2 * n
  {
    if n == 0 then before else
    ReadSleeps(before, elapsed, minReadInterval, ping, n - 1)
      + IntervalWait(if n == 1 then elapsed else 0, minReadInterval) + [ping]
  }

  /** One attempt's wait and ping extend the sleeps of the attempts before it. */
  lemma ReadSleepsStep(before: seq<nat>, elapsed: nat, minReadInterval: nat, ping: nat, n: nat,
                       pre: seq<nat>, since: nat, post: seq<nat>)
    requires pre == ReadSleeps(before, elapsed, minReadInterval, ping, n)
    requires since == if n == 0 then elapsed else 0
    requires post == pre + IntervalWait(since, minReadInterval) + [ping]
    ensures post == ReadSleeps(before, elapsed, minReadInterval, ping, n + 1)
  {
  }

  /** The levels driven on the data pin after `n` attempts of a read that
      found `before` driven, on a pin in input mode when `inputMode`. */
  function ReadDriven(before: seq<bool>, inputMode: bool, n: nat): (driven: seq<bool>)
    ensures before <= driven && 2 * n <= |driven| - |before| <= 2 * n + 1
  {
    if n == 0 then before else
    ReadDriven(before, inputMode, n - 1) + (if n == 1 && inputMode then [true] else []) + [false, true]
  }

  /** One attempt's request extends the levels driven by the attempts before it. */
  lemma ReadDrivenStep(before: seq<bool>, inputMode: bool, n: nat, pre: seq<bool>, input: bool, post: seq<bool>)
    requires pre == ReadDriven(before, inputMode, n)
    requires input == (n == 0 && inputMode)
    requires post == pre + (if input then [true] else []) + [false, true]
    ensures post == ReadDriven(before, inputMode, n + 1)
  {
  }

  /** The sleeps of the attempts after the first: each follows an attempt
      that set the last read time to now, so it waits the whole minimum read
      interval again before its ping. */
  function RetryWaits(n: nat, minReadInterval: nat, ping: nat): (waits: seq<nat>)
    ensures |waits| == 2 * n
  {
    if n == 0 then [] else RetryWaits(n - 1, minReadInterval, ping) + [minReadInterval, ping]
  }

  /** The levels `n` requests drive: low for the ping, then high again. */
  function PingLevels(n: nat): (levels: seq<bool>)
    ensures |levels| == 2 * n
  {
    if n == 0 then [] else PingLevels(n - 1) + [false, true]
  }

  /** A retry starts right after an attempt set the last read time, so it
      sleeps the whole minimum read interval, then pings. */
  lemma RetryWaitsStep(before: seq<nat>, n: nat, minReadInterval: nat, ping: nat)
    requires minReadInterval > 0
    ensures before + RetryWaits(n, minReadInterval, ping) + IntervalWait(0, minReadInterval) + [ping]
         == before + RetryWaits(n + 1, minReadInterval, ping)
  {
    assert IntervalWait(0, minReadInterval) == [minReadInterval];
    calc {
      before + RetryWaits(n, minReadInterval, ping) + [minReadInterval] + [ping];
      before + (RetryWaits(n, minReadInterval, ping) + [minReadInterval, ping]);
    }
  }

  /** Each request drives the line low, then high again. */
  lemma PingLevelsStep(before: seq<bool>, n: nat)
    ensures before + PingLevels(n) + [false, true] == before + PingLevels(n + 1)
  {
  }

  /** A corrupted byte is caught: when the parsed frame differs from a
      sensor's frame in exactly one byte, payload or parity, the read fails
      with BadData. */
  lemma CorruptedByteRejected(ticks: seq<u32>, endTicks: nat, payload: seq<u8>, k: nat, x: u8)
    requires |ticks| == FrameBits && Bounded(ticks) && |payload| == 4
    requires k < 5 && x != FrameBytesOf(payload)[k]
    requires ParsedFrame(ticks) == FrameBytesOf(payload)[k := x]
    ensures DecodeFrame(ticks, endTicks) == Err(BadData)
  {
    var bytes := ParsedFrame(ticks);
    if k < 4 {
      assert bytes[..4] == payload[k := x];
      ChecksumDetectsByteChange(payload, k, x);
      assert bytes[4] == Checksum(payload);
    } else {
      assert bytes[..4] == payload;
    }
    assert FrameBytesOf(bytes[..4])[4] != bytes[4];
  }

  /** A frame sent with two pulse lengths, and an end pulse no longer than
      the short one, decodes to the payload it carries. */
  lemma DecodeFrameOfPulses(payload: seq<u8>, short: u32, long: u32, endTicks: nat)
    requires |payload| == 4 && short < long < TickLimit && endTicks <= short
    ensures |Pulses(FrameBitsOf(payload), short, long)| == FrameBits
    ensures Bounded(Pulses(FrameBitsOf(payload), short, long))
    ensures DecodeFrame(Pulses(FrameBitsOf(payload), short, long), endTicks) == Ok(payload)
  {
    ParsedFrameOfPulses(payload, short, long);
    assert ParsedFrame(Pulses(FrameBitsOf(payload), short, long))[..4] == payload;
  }

  /** The end pulse: `low` more low samples, then the line released high. */
  function EndSamples(low: nat): seq<bool>
  {
    Run(false, low) + [true]
  }

  /** The ACK is counted as the length of its three phases when the watchdog
      does not fire during the first two. */
  lemma AckOfSamples(high: nat, low: nat, response: nat, elapsed: nat -> bool, levels: seq<bool>,
                      rest: seq<bool>)
    requires levels == AckSamples(high, low, response) + rest
    requires forall k :: 0 < k <= high + low ==> !Stops(Watchdog(elapsed), k)
    ensures AckSpec(levels, elapsed).0 == Ok(high + low + response)
    ensures AckSpec(levels, elapsed).1 == rest
  {
    var tail := Run(true, response) + [false] + rest;
    var middle := Run(false, low) + [true] + tail;
    assert levels == Run(true, high) + [false] + middle;
    PollRun(high, true, 0, Watchdog(elapsed), middle);
    PollRun(low, false, high, Watchdog(elapsed), tail);
    PollRun(response, true, high + low, Unbounded, rest);
  }

  /** receive_data composed from its phases: when the ACK, the forty bits
      and the end pulse are each sampled, the frame is decoded from the
      bit counts. */
  lemma ReceivePhases(levels: seq<bool>, elapsed: nat -> bool, count: nat, afterAck: seq<bool>,
                      ticks: seq<u32>, afterBits: seq<bool>, endTicks: nat, rest: seq<bool>,
                      payload: seq<u8>)
    requires |levels| < TickLimit && |ticks| == FrameBits && Bounded(ticks)
    requires AckSpec(levels, elapsed).0 == Ok(count) && AckSpec(levels, elapsed).1 == afterAck
    requires SampleBitsSpec(afterAck, BitTimeout(count), FrameBits).0 == Ok(ticks)
    requires SampleBitsSpec(afterAck, BitTimeout(count), FrameBits).1 == afterBits
    requires EndSpec(afterBits, BitTimeout(count)).0 == Ok(endTicks)
    requires EndSpec(afterBits, BitTimeout(count)).1 == rest
    requires DecodeFrame(ticks, endTicks) == Ok(payload)
    ensures ReceiveSpec(levels, elapsed).0 == Ok(payload) && ReceiveSpec(levels, elapsed).1 == rest
  {
  }

  /** An end pulse within the timeout is counted as its length. */
  lemma EndOfSamples(low: nat, timeout: nat, rest: seq<bool>)
    requires low <= timeout
    ensures EndSpec(EndSamples(low) + rest, timeout) == (Ok(low), rest)
  {
    PollRun(low, false, 0, Timeout(timeout), rest);
  }

  /** receive_data on a line whose phases are sampled as an ideal frame of
      `payload` with two pulse lengths. */
  lemma ReceiveOfPulses(levels: seq<bool>, elapsed: nat -> bool, count: nat, afterAck: seq<bool>,
                        afterBits: seq<bool>, rest: seq<bool>, payload: seq<u8>,
                        short: u32, long: u32, endLow: nat, timeout: nat)
    requires |levels| < TickLimit && |payload| == 4 && short < long < TickLimit && endLow <= short
    requires AckSpec(levels, elapsed).0 == Ok(count) && AckSpec(levels, elapsed).1 == afterAck
    requires timeout == BitTimeout(count)
    requires SampleBitsSpec(afterAck, timeout, FrameBits).0
               == Ok(Pulses(FrameBitsOf(payload), short, long))
    requires SampleBitsSpec(afterAck, timeout, FrameBits).1 == afterBits
    requires EndSpec(afterBits, timeout).0 == Ok(endLow)
    requires EndSpec(afterBits, timeout).1 == rest
    ensures ReceiveSpec(levels, elapsed).0 == Ok(payload) && ReceiveSpec(levels, elapsed).1 == rest
  {
    DecodeFrameOfPulses(payload, short, long, endLow);
    ReceivePhases(levels, elapsed, count, afterAck, Pulses(FrameBitsOf(payload), short, long),
                  afterBits, endLow, rest, payload);
  }

  /** The bits and the end pulse of an ideal response, each sampled on its
      own. */
  lemma IdealSampling(payload: seq<u8>, zero: (nat, nat), one: (nat, nat), endLow: nat,
                      timeout: nat, rest: seq<bool>, afterAck: seq<bool>, afterBits: seq<bool>)
    requires |payload| == 4
    requires zero.0 + zero.1 < one.0 + one.1 <= timeout && one.0 + one.1 < TickLimit
    requires endLow <= zero.0 + zero.1
    requires afterBits == EndSamples(endLow) + rest
    requires afterAck == FramePulses(FrameBitsOf(payload), zero, one) + afterBits
    ensures SampleBitsSpec(afterAck, timeout, FrameBits).0
              == Ok(Pulses(FrameBitsOf(payload), zero.0 + zero.1, one.0 + one.1))
    ensures SampleBitsSpec(afterAck, timeout, FrameBits).1 == afterBits
    ensures EndSpec(afterBits, timeout).0 == Ok(endLow)
    ensures EndSpec(afterBits, timeout).1 == rest
  {
    var bits := FrameBitsOf(payload);
    assert |bits| == FrameBits;
    SampleFramePulses(bits, zero, one, timeout, afterBits);
    PulseTicksArePulses(bits, zero, one);
    EndOfSamples(endLow, timeout, rest);
  }

  /** End to end: a sensor that acknowledges, sends the frame of `payload`
      with zero bits shorter than one bits and both within the timeout the
      ACK sets, and ends with a short end pulse, is read as `payload`. */
  lemma ReceiveIdealFrame(levels: seq<bool>, payload: seq<u8>, ack: (nat, nat, nat), zero: (nat, nat),
                          one: (nat, nat), endLow: nat, elapsed: nat -> bool, rest: seq<bool>)
    requires |payload| == 4
    requires levels == AckSamples(ack.0, ack.1, ack.2) + FramePulses(FrameBitsOf(payload), zero, one)
                       + EndSamples(endLow) + rest
    requires |levels| < TickLimit
    requires forall k :: 0 < k <= ack.0 + ack.1 ==> !Stops(Watchdog(elapsed), k)
    requires zero.0 + zero.1 < one.0 + one.1 <= 4 * (ack.0 + ack.1 + ack.2)
    requires one.0 + one.1 < TickLimit
    requires endLow <= zero.0 + zero.1
    ensures ReceiveSpec(levels, elapsed) == (Ok(payload), rest)
  {
    var afterBits := EndSamples(endLow) + rest;
    var afterAck := FramePulses(FrameBitsOf(payload), zero, one) + afterBits;
    assert levels == AckSamples(ack.0, ack.1, ack.2) + afterAck;
    ReceivePhasesOfSamples(levels, payload, ack, zero, one, endLow, elapsed, rest, afterAck, afterBits);
  }

  lemma ReceivePhasesOfSamples(levels: seq<bool>, payload: seq<u8>, ack: (nat, nat, nat),
                               zero: (nat, nat), one: (nat, nat), endLow: nat, elapsed: nat -> bool,
                               rest: seq<bool>, afterAck: seq<bool>, afterBits: seq<bool>)
    requires |payload| == 4 && |levels| < TickLimit
    requires levels == AckSamples(ack.0, ack.1, ack.2) + afterAck
    requires afterAck == FramePulses(FrameBitsOf(payload), zero, one) + afterBits
    requires afterBits == EndSamples(endLow) + rest
    requires forall k :: 0 < k <= ack.0 + ack.1 ==> !Stops(Watchdog(elapsed), k)
    requires zero.0 + zero.1 < one.0 + one.1 <= 4 * (ack.0 + ack.1 + ack.2)
    requires one.0 + one.1 < TickLimit
    requires endLow <= zero.0 + zero.1
    ensures ReceiveSpec(levels, elapsed).0 == Ok(payload) && ReceiveSpec(levels, elapsed).1 == rest
  {
    AckOfSamples(ack.0, ack.1, ack.2, elapsed, levels, afterAck);
    ReceiveAfterAck(levels, payload, ack.0 + ack.1 + ack.2, zero, one, endLow, elapsed,
                    rest, afterAck, afterBits);
  }

  /** The frame and end pulse sampled after an acknowledgement of `count`
      samples. */
  lemma ReceiveAfterAck(levels: seq<bool>, payload: seq<u8>, count: nat,
                        zero: (nat, nat), one: (nat, nat), endLow: nat, elapsed: nat -> bool,
                        rest: seq<bool>, afterAck: seq<bool>, afterBits: seq<bool>)
    requires |payload| == 4 && |levels| < TickLimit
    requires AckSpec(levels, elapsed).0 == Ok(count) && AckSpec(levels, elapsed).1 == afterAck
    requires afterAck == FramePulses(FrameBitsOf(payload), zero, one) + afterBits
    requires afterBits == EndSamples(endLow) + rest
    requires zero.0 + zero.1 < one.0 + one.1 <= 4 * count
    requires one.0 + one.1 < TickLimit
    requires endLow <= zero.0 + zero.1
    ensures ReceiveSpec(levels, elapsed).0 == Ok(payload) && ReceiveSpec(levels, elapsed).1 == rest
  {
    var timeout := BitTimeout(count);
    assert timeout == 4 * count;
    IdealSampling(payload, zero, one, endLow, timeout, rest, afterAck, afterBits);
    ReceiveOfPulses(levels, elapsed, count, afterAck, afterBits, rest, payload,
                    zero.0 + zero.1, one.0 + one.1, endLow, timeout);
  }

  /** The first attempt of a read waits what is left of the minimum read
      interval; every retry follows an attempt that set the last read time
      to now, so it waits the whole interval again. */
  lemma {:induction false} ReadSleepsRetries(before: seq<nat>, elapsed: nat, minReadInterval: nat, ping: nat, n: nat)
    requires minReadInterval > 0
    ensures ReadSleeps(before, elapsed, minReadInterval, ping, n + 1)
         == before + IntervalWait(elapsed, minReadInterval) + [ping] + RetryWaits(n, minReadInterval, ping)
  {
    if n > 0 {
      ReadSleepsRetries(before, elapsed, minReadInterval, ping, n - 1);
      RetryWaitsStep(before + IntervalWait(elapsed, minReadInterval) + [ping], n - 1, minReadInterval, ping);
    }
  }

  /** The first attempt of a read switches an input pin back to output
      mode, driving it high; every attempt then drives the line low and
      high again. */
  lemma {:induction false} ReadDrivenRetries(before: seq<bool>, inputMode: bool, n: nat)
    ensures ReadDriven(before, inputMode, n + 1)
         == before + (if inputMode then [true] else []) + [false, true] + PingLevels(n)
  {
    if n > 0 {
      ReadDrivenRetries(before, inputMode, n - 1);
      PingLevelsStep(before + (if inputMode then [true] else []) + [false, true], n - 1);
    }
  }

  /** The state shared by both sensor drivers: the data pin, in input or
      output mode, the time of the last read, the clock, and the ACK
      watchdog's time source (whether more than the ACK timeout has elapsed
      when the ACK counter reaches a value). */
  class DhtBase {
    var inputPin: Option<Pin>
    var outputPin: Option<Pin>
    var lastReadTime: nat
    const clock: Clock
    const ackTimedOut: nat -> bool

    ghost predicate Valid()
      reads this, clock
    {
      && inputPin.Some? != outputPin.Some?
      && |Line().levels| < TickLimit
      && lastReadTime <= clock.now
    }

    /** The data pin, in whichever mode it is. */
    function Line(): (pin: Pin)
      reads this
      requires inputPin.Some? || outputPin.Some?
      ensures pin == if outputPin.Some? then outputPin.value else inputPin.value
    {
      if outputPin.Some? then outputPin.value else inputPin.value
    }

    /** The time since the last read as `read` sees it: none when the pin
        must first go back to output mode, which sets the last read time. */
    function SinceLastRead(): (elapsed: nat)
      reads this, clock
      requires Valid()
    {
      if outputPin.None? then 0 else clock.now - lastReadTime
    }

    constructor (pin: Pin, clock: Clock, ackTimedOut: nat -> bool)
      requires |pin.levels| < TickLimit
      ensures Valid()
      ensures outputPin == Some(pin) && inputPin == None
      ensures this.clock == clock && lastReadTime == clock.now && this.ackTimedOut == ackTimedOut
    {
      inputPin := None;
      outputPin := Some(pin);
      lastReadTime := clock.now;
      this.clock := clock;
      this.ackTimedOut := ackTimedOut;
    }

    /** Switches the pin back to output mode, driven high, and records the
        time as the last read time. */
    method SwapToOutputMode()
      requires Valid() && inputPin.Some?
      modifies this
      ensures Valid()
      ensures outputPin == Some(Drive(old(inputPin.value), true)) && inputPin == None
      ensures lastReadTime == clock.now
    {
      outputPin := Some(Drive(inputPin.value, true));
      inputPin := None;
      lastReadTime := clock.now;
    }

    /** Pulls the line low for the ping duration to request a frame. */
    method RequestData(pingDuration: nat)
      requires Valid() && outputPin.Some?
      modifies this, clock
      ensures Valid() && outputPin == Some(Drive(old(outputPin.value), false)) && inputPin == None
      ensures lastReadTime == old(lastReadTime)
      ensures clock.now == old(clock.now) + pingDuration
      ensures clock.sleeps == old(clock.sleeps) + [pingDuration]
    {
      outputPin := Some(Drive(outputPin.value, false));
      clock.Sleep(pingDuration);
    }

    /** Samples the response to a request, returns the pin to output mode and
        decodes the frame. */
    method ReceiveData() returns (r: Result<seq<u8>, DhtError>)
      requires Valid() && outputPin.Some?
      modifies this
      ensures Valid() && outputPin.Some?
      ensures r == ReceiveSpec(old(outputPin.value.levels), ackTimedOut).0
      ensures outputPin.value.levels == ReceiveSpec(old(outputPin.value.levels), ackTimedOut).1
      ensures outputPin.value.driven == old(outputPin.value.driven) + [true]
      ensures lastReadTime == clock.now
    {
      inputPin := Some(outputPin.value);
      outputPin := None;
      var driven := inputPin.value.driven;
      var levels := inputPin.value.levels;

      var ack, rest := ReadAck(levels, ackTimedOut);
      if ack.Err? {
        inputPin := Some(Pin(rest, driven));
        SwapToOutputMode();
        return Err(ack.error);
      }
      var bitTimeout := BitTimeout(ack.value);

      var bits;
      bits, rest := ReadFrameBits(rest, bitTimeout);
      if bits.Err? {
        inputPin := Some(Pin(rest, driven));
        SwapToOutputMode();
        return Err(bits.error);
      }
      var end;
      end, rest := ReadEndWithTimeout(rest, bitTimeout);
      if end.Err? {
        inputPin := Some(Pin(rest, driven));
        SwapToOutputMode();
        return Err(end.error);
      }
      inputPin := Some(Pin(rest, driven));
      SwapToOutputMode();

      r := DecodeBits(bits.value, end.value);
    }

    /** Reads the sensor: makes sure the pin drives the line high, waits out
        the minimum read interval, requests a frame, receives and decodes
        it. */
    method Read(variant: Variant, minReadInterval: nat) returns (r: Result<Response, DhtError>)
      requires Valid()
      modifies this, clock
      ensures Valid() && outputPin.Some?
      ensures r == AttemptSpec(variant, old(Line().levels), ackTimedOut).0
      ensures outputPin.value.levels == AttemptSpec(variant, old(Line().levels), ackTimedOut).1
      ensures outputPin.value.driven
        == old(Line().driven) + (if old(outputPin).None? then [true] else []) + [false, true]
      ensures clock.sleeps == old(clock.sleeps)
        + IntervalWait(old(SinceLastRead()), minReadInterval)
        + [PingDuration(variant)]
      ensures old(outputPin).Some? ==> clock.now - PingDuration(variant) >= old(lastReadTime) + minReadInterval
      ensures lastReadTime == clock.now
    {
      if outputPin.None? {
        SwapToOutputMode();
      }
      var elapsed := clock.now - lastReadTime;
      if elapsed < minReadInterval {
        clock.Sleep(minReadInterval - elapsed);
      }
      RequestData(PingDuration(variant));
      var bytes := ReceiveData();
      if bytes.Err? {
        return Err(bytes.error);
      }
      var result := FromRawBytes(variant, bytes.value);
      if !IsValid(result) {
        return Err(BadData);
      }
      r := Ok(result);
    }
  }

  /** The checks on five bytes given as a payload and a parity byte. */
  lemma CheckedPayloadOf(bytes: seq<u8>, payload: seq<u8>, parity: u8, endTicks: nat, threshold: u32)
    requires bytes == payload + [parity] && |payload| == 4
    ensures CheckedPayload(bytes, endTicks, threshold)
      == if parity != Checksum(payload) || endTicks > threshold then Err(BadData) else Ok(payload)
  {
    assert bytes[..4] == payload;
  }

  /** The decoding tail of receive_data over the sampled bit counts. */
  method DecodeBits(bitTicks: seq<u32>, endTicks: nat) returns (r: Result<seq<u8>, DhtError>)
    requires |bitTicks| == FrameBits && Bounded(bitTicks)
    ensures r == DecodeFrame(bitTicks, endTicks)
  {
    var threshold := DetermineTickThreshold(bitTicks);
    r := DecodeWithThreshold(bitTicks, endTicks, threshold);
  }

  /** The bytes parsed against the threshold, then the parity and end checks. */
  method DecodeWithThreshold(bitTicks: seq<u32>, endTicks: nat, threshold: u32)
    returns (r: Result<seq<u8>, DhtError>)
    requires |bitTicks| == FrameBits
    ensures r == CheckedPayload(ParsedBytes(bitTicks, threshold), endTicks, threshold)
  {
    var bytes := ParseFrame(bitTicks, threshold);
    var highHumidity, lowHumidity, highTemp, lowTemp, parity := bytes[0], bytes[1], bytes[2], bytes[3], bytes[4];

    var sum: u16 := highHumidity as int + lowHumidity as int + highTemp as int + lowTemp as int;
    var expectedParity := sum % 0x100;

    var endBit := if endTicks > threshold then 1 else 0;
    var payload := [highHumidity, lowHumidity, highTemp, lowTemp];
    ChecksumOfBytes(highHumidity, lowHumidity, highTemp, lowTemp);
    CheckedPayloadOf(bytes, payload, parity, endTicks, threshold);
    if parity != expectedParity || endBit == 1 {
      return Err(BadData);
    }
    r := Ok(payload);
  }

  /** A DHT11 or DHT22 sensor: the driver core and its options. */
  class Dht {
    const variant: Variant
    const options: Options
    const base: DhtBase

    ghost predicate Valid()
      reads this, base, base.clock
    {
      base.Valid() && ValidOptions(variant, options)
    }

    constructor (variant: Variant, options: Options, base: DhtBase)
      ensures this.variant == variant && this.options == options && this.base == base
    {
      this.variant := variant;
      this.options := options;
      this.base := base;
    }

    /** `new`: a driver over `pin` with the given options or the defaults;
        invalid options are refused. */
    static method New(variant: Variant, pin: Pin, clock: Clock, ackTimedOut: nat -> bool,
                      options: Option<Options>)
      returns (r: Result<Dht, DhtError>)
      requires |pin.levels| < TickLimit
      ensures r.Err? <==> CheckOptions(variant, options).Err?
      ensures r.Err? ==> r.error == InvalidArgument
      ensures r.Ok? ==> fresh(r.value) && fresh(r.value.base) && r.value.Valid()
      ensures r.Ok? ==> r.value.variant == variant && r.value.options == CheckOptions(variant, options).value
      ensures r.Ok? ==> r.value.base.outputPin == Some(pin) && r.value.base.inputPin == None
      ensures r.Ok? ==> r.value.base.clock == clock && r.value.base.lastReadTime == clock.now
      ensures r.Ok? ==> r.value.base.ackTimedOut == ackTimedOut
    {
      var base := new DhtBase(pin, clock, ackTimedOut);
      var checked := CheckOptions(variant, options);
      if checked.Err? {
        return Err(checked.error);
      }
      var dht := new Dht(variant, checked.value, base);
      r := Ok(dht);
    }

    /** One attempt: DhtBase::read with this sensor's ping and interval. */
    method Attempt() returns (result: Result<Response, DhtError>)
      requires Valid()
      modifies base, base.clock
      ensures Valid() && base.outputPin.Some?
      ensures result == AttemptSpec(variant, old(base.Line().levels), base.ackTimedOut).0
      ensures base.Line().levels == AttemptSpec(variant, old(base.Line().levels), base.ackTimedOut).1
      ensures base.outputPin.value.driven
        == old(base.Line().driven) + (if old(base.outputPin).None? then [true] else []) + [false, true]
      ensures base.clock.sleeps == old(base.clock.sleeps)
        + IntervalWait(old(base.SinceLastRead()),
                       options.minReadInterval)
        + [PingDuration(variant)]
      ensures old(base.outputPin).Some? ==>
        base.clock.now - PingDuration(variant) >= old(base.lastReadTime) + options.minReadInterval
      ensures base.lastReadTime == base.clock.now
    {
      result := base.Read(variant, options.minReadInterval);
    }

    /** Attempt `n + 1` of a read that found `start` on the line and got
        `before` from its first `n` attempts. */
    method NextAttempt(ghost start: seq<bool>, ghost before: seq<Result<Response, DhtError>>, ghost n: nat)
      returns (result: Result<Response, DhtError>)
      requires Valid() && |start| < TickLimit
      requires before == AttemptsSpec(variant, start, base.ackTimedOut, n).0
      requires base.Line().levels == AttemptsSpec(variant, start, base.ackTimedOut, n).1
      modifies base, base.clock
      ensures Valid() && base.outputPin.Some?
      ensures before + [result] == AttemptsSpec(variant, start, base.ackTimedOut, n + 1).0
      ensures base.Line().levels == AttemptsSpec(variant, start, base.ackTimedOut, n + 1).1
      ensures base.outputPin.value.driven
        == old(base.Line().driven) + (if old(base.outputPin).None? then [true] else []) + [false, true]
      ensures base.clock.sleeps == old(base.clock.sleeps)
        + IntervalWait(old(base.SinceLastRead()), options.minReadInterval) + [PingDuration(variant)]
      ensures base.lastReadTime == base.clock.now
    {
      result := Attempt();
      AttemptsStep(variant, start, base.ackTimedOut, n);
    }

    /** Reads the sensor, retrying results other than a reading or
        NoResponse up to the configured number of attempts; `attempts` are
        the results of the attempts made, the last one returned. Every
        attempt sleeps and drives the line as DhtBase::read does, so a retry
        waits the whole minimum read interval again (ReadSleepsRetries). */
    method Read() returns (r: Result<Response, DhtError>, ghost attempts: seq<Result<Response, DhtError>>)
      requires Valid()
      modifies base, base.clock
      ensures Valid() && base.outputPin.Some?
      ensures 1 <= |attempts| <= options.maxAttempts && r == attempts[|attempts| - 1]
      ensures forall i :: 0 <= i < |attempts| - 1 ==> Retryable(attempts[i])
      ensures |attempts| < options.maxAttempts ==> !Retryable(r)
      ensures attempts == AttemptsSpec(variant, old(base.Line().levels), base.ackTimedOut, |attempts|).0
      ensures base.outputPin.value.levels
        == AttemptsSpec(variant, old(base.Line().levels), base.ackTimedOut, |attempts|).1
      ensures base.clock.sleeps == ReadSleeps(old(base.clock.sleeps), old(base.SinceLastRead()),
                                              options.minReadInterval, PingDuration(variant), |attempts|)
      ensures base.lastReadTime == base.clock.now
      ensures base.outputPin.value.driven
        == ReadDriven(old(base.Line().driven), old(base.outputPin).None?, |attempts|)
    {
      var lastResult: Option<Result<Response, DhtError>> := None;
      attempts := [];
      ghost var start := base.Line().levels;
      ghost var sleeps := base.clock.sleeps;
      ghost var elapsed := base.SinceLastRead();
      ghost var driven := base.Line().driven;
      ghost var inputMode := base.outputPin.None?;
      var i := 0;
      while i < options.maxAttempts
        invariant 0 <= i <= options.maxAttempts && |attempts| == i
        invariant Valid() && (i > 0 ==> base.outputPin.Some?)
        invariant lastResult.None? <==> i == 0
        invariant i > 0 ==> lastResult.value == attempts[i - 1]
        invariant forall j :: 0 <= j < i ==> Retryable(attempts[j])
        invariant attempts == AttemptsSpec(variant, start, base.ackTimedOut, i).0
        invariant base.Line().levels == AttemptsSpec(variant, start, base.ackTimedOut, i).1
        invariant base.SinceLastRead() == if i == 0 then elapsed else 0
        invariant i > 0 ==> base.lastReadTime == base.clock.now
        invariant base.clock.sleeps
          == ReadSleeps(sleeps, elapsed, options.minReadInterval, PingDuration(variant), i)
        invariant base.outputPin.None? == (i == 0 && inputMode)
        invariant base.Line().driven == ReadDriven(driven, inputMode, i)
      {
        ghost var pre := base.clock.sleeps;
        ghost var since := base.SinceLastRead();
        ghost var preDriven := base.Line().driven;
        ghost var input := base.outputPin.None?;
        var result := NextAttempt(start, attempts, i);
        attempts := attempts + [result];
        ReadSleepsStep(sleeps, elapsed, options.minReadInterval, PingDuration(variant), i,
                       pre, since, base.clock.sleeps);
        ReadDrivenStep(driven, inputMode, i, preDriven, input, base.outputPin.value.driven);
        lastResult := Some(result);
        if !Retryable(result) {
          return result, attempts;
        }
        i := i + 1;
      }
      r := lastResult.value;
    }
  }
}
