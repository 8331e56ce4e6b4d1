/** The older single-sensor DHT11 driver. It samples the same frame as the
    DHT11/DHT22 driver, with the same threshold and byte parsing, but
    - forces the humidity decimal byte to 0 and keeps only the low four bits
      of the temperature decimal byte before checking the parity,
    - reports Timeout and BadParity instead of BadData, checks no end pulse
      and has no ACK watchdog,
    - has a settable minimum read interval and does not retry. */
module Dht11 {
  import opened Common
  import opened DhtLine
  import opened DhtThreshold
  import opened DhtFrame

  datatype Dht11Error = Wrapped | InvalidArgument | BadParity | Timeout

  /** A reading; the temperature byte is read as a signed byte. */
  datatype DhtResponse = DhtResponse(humidity: u8, humidityDecimal: u8, temperature: i8, temperatureDecimal: u8)

  /** A byte reinterpreted as a signed byte (two's complement). */
  function AsSigned(b: u8): (v: i8)
    ensures v % 0x100 == b
    ensures v < 0 <==> b >= 0x80
  {
    if b >= 0x80 then b - 0x100 else b
  }

  function FromRawBytes(bytes: seq<u8>): (r: DhtResponse)
    requires |bytes| == 4
  {
    DhtResponse(bytes[0], bytes[1], AsSigned(bytes[2]), bytes[3])
  }

  /** The payload bytes a reading comes from. */
  function RawBytes(r: DhtResponse): (bytes: seq<u8>)
    ensures |bytes| == 4
  {
    [r.humidity, r.humidityDecimal, r.temperature % 0x100, r.temperatureDecimal]
  }

  /** Decoding copies three bytes and reinterprets the temperature byte, so
      it is a bijection between payloads and readings. */
  lemma FromRawBytesRoundTrip(bytes: seq<u8>, r: DhtResponse)
    requires |bytes| == 4
    ensures RawBytes(FromRawBytes(bytes)) == bytes
    ensures FromRawBytes(RawBytes(r)) == r
  {
  }

  /** The default, and least, minimum read interval in ms. */
  const MinimumReadInterval := 1000

  /** How long the host pulls the line low to request a frame, in ms. */
  const PingDuration := 18

  /** read_ack: three polling loops with no limit. */
  function AckSpec(levels: seq<bool>): (r: (Result<nat, Dht11Error>, seq<bool>))
    ensures |r.1| <= |levels|
    ensures r.0.Ok? ==> r.0.value < |levels|
    ensures r.0.Err? ==> r.0.error == Wrapped
  {
    var first := PollSpec(levels, true, 0, Unbounded);
    if !first.0.Changed? then (Err(Wrapped), first.1)
    else
      var second := PollSpec(first.1, false, first.0.counter, Unbounded);
      if !second.0.Changed? then (Err(Wrapped), second.1)
      else
        var third := PollSpec(second.1, true, second.0.counter, Unbounded);
        if !third.0.Changed? then (Err(Wrapped), third.1)
        else (Ok(third.0.counter), third.1)
  }

  method ReadAck(levels: seq<bool>) returns (r: Result<nat, Dht11Error>, rest: seq<bool>)
    ensures (r, rest) == AckSpec(levels)
  {
    var first, afterFirst := PollWhile(levels, true, 0, Unbounded);
    if !first.Changed? {
      return Err(Wrapped), afterFirst;
    }
    var second, afterSecond := PollWhile(afterFirst, false, first.counter, Unbounded);
    if !second.Changed? {
      return Err(Wrapped), afterSecond;
    }
    var third;
    third, rest := PollWhile(afterSecond, true, second.counter, Unbounded);
    if !third.Changed? {
      return Err(Wrapped), rest;
    }
    r := Ok(third.counter);
  }

  /** The error of a bit that did not complete. */
  function BitError(p: Poll): Dht11Error
  {
    if p.Failed? then Wrapped else Dht11Error.Timeout
  }

  method ReadBitWithTimeout(levels: seq<bool>, timeout: nat) returns (r: Result<nat, Dht11Error>, rest: seq<bool>)
    ensures r.Ok? <==> BitSpec(levels, timeout).0.Changed?
    ensures r.Ok? ==> r.value == BitSpec(levels, timeout).0.counter
    ensures r.Err? ==> r.error == BitError(BitSpec(levels, timeout).0)
    ensures rest == BitSpec(levels, timeout).1
  {
    var low, afterLow := PollWhile(levels, false, 0, Limit.Timeout(timeout));
    if !low.Changed? {
      return Err(BitError(low)), afterLow;
    }
    var high;
    high, rest := PollWhile(afterLow, true, low.counter, Limit.Timeout(timeout));
    if !high.Changed? {
      return Err(BitError(high)), rest;
    }
    r := Ok(high.counter);
  }

  /** A bit pulse longer than the timeout is a Timeout. */
  lemma LongPulseIsTimeout(low: nat, high: nat, timeout: nat, rest: seq<bool>)
    requires low + high > timeout
    ensures BitError(BitSpec(PulseSamples(low, high) + rest, timeout).0) == Dht11Error.Timeout
    ensures !BitSpec(PulseSamples(low, high) + rest, timeout).0.Changed?
  {
    LongPulseTimesOut(low, high, timeout, rest);
  }

  /** The loop of receive_data that samples the forty bits into bit_ticks. */
  method ReadFrameBits(levels: seq<bool>, timeout: nat) returns (r: Result<seq<u32>, Dht11Error>, rest: seq<bool>)
    requires |levels| < TickLimit
    ensures var spec := SampleBitsSpec(levels, timeout, FrameBits);
      && rest == spec.1
      && (r.Ok? <==> spec.0.Ok?)
      && (r.Ok? ==> r.value == spec.0.value)
      && (r.Err? ==> r.error == BitError(spec.0.error))
  {
    var bitTicks := new u32[FrameBits];
    rest := levels;
    for i := 0 to FrameBits
      invariant SampleBitsSpec(levels, timeout, i) == (Ok(bitTicks[..i]), rest)
    {
      var bit, afterBit := ReadBitWithTimeout(rest, timeout);
      if bit.Err? {
        SampleBitsStaysFailed(levels, timeout, i + 1, FrameBits);
        return Err(bit.error), afterBit;
      }
      ghost var before := bitTicks[..i];
      bitTicks[i] := bit.value;
      rest := afterBit;
      assert bitTicks[..i + 1] == before + [bit.value];
    }
    assert bitTicks[..FrameBits] == bitTicks[..];
    r := Ok(bitTicks[..]);
  }

  /** The payload as this driver keeps it: the humidity decimal forced to 0
      and the temperature decimal cut to its low four bits. */
  function Normalized(bytes: seq<u8>): (payload: seq<u8>)
    requires |bytes| >= 4
    ensures |payload| == 4 && payload[1] == 0 && payload[3] < 0x10
  {
    [bytes[0], 0, bytes[2], bytes[3] % 0x10]
  }

  /** The check at the end of receive_data: the normalized payload is kept
      only when the parity byte matches it. */
  function CheckedPayload(bytes: seq<u8>): (r: Result<seq<u8>, Dht11Error>)
    requires |bytes| == 5
  {
    var payload := Normalized(bytes);
    if bytes[4] != Checksum(payload) then Err(BadParity) else Ok(payload)
  }

  /** The tail of receive_data: the payload is kept only when the parity
      byte matches the normalized payload. */
  function DecodeFrame(ticks: seq<u32>): (r: Result<seq<u8>, Dht11Error>)
    requires |ticks| == FrameBits && Bounded(ticks)
    ensures r.Ok? <==> ParsedFrame(ticks)[4] == Checksum(Normalized(ParsedFrame(ticks)))
    ensures r.Ok? ==> r.value == Normalized(ParsedFrame(ticks))
    ensures r.Err? ==> r.error == BadParity
  {
    CheckedPayload(ParsedFrame(ticks))
  }

  /** receive_data on the samples of the input pin. */
  function ReceiveSpec(levels: seq<bool>): (r: (Result<seq<u8>, Dht11Error>, seq<bool>))
    requires |levels| < TickLimit
    ensures |r.1| <= |levels|
    ensures r.0.Ok? ==> |r.0.value| == 4
  {
    var ack := AckSpec(levels);
    if ack.0.Err? then (Err(ack.0.error), ack.1)
    else
      var timeout := (ack.0.value * 4) % 0x1_0000_0000;
      var bits := SampleBitsSpec(ack.1, timeout, FrameBits);
      if bits.0.Err? then (Err(BitError(bits.0.error)), bits.1)
      else
        var ticks: seq<u32> := bits.0.value;
        (DecodeFrame(ticks), bits.1)
  }

  /** read after the request: receive the payload and decode it. */
  function ReadSpec(levels: seq<bool>): (r: (Result<DhtResponse, Dht11Error>, seq<bool>))
    requires |levels| < TickLimit
    ensures |r.1| <= |levels|
    ensures r.0.Ok? ==> r.0.value.humidityDecimal == 0 && r.0.value.temperatureDecimal < 0x10
  {
    var received := ReceiveSpec(levels);
    if received.0.Err? then (Err(received.0.error), received.1)
    else (Ok(FromRawBytes(received.0.value)), received.1)
  }

  /** A frame whose payload this driver can represent (humidity decimal 0,
      temperature decimal below 16), sent with two pulse lengths, decodes to
      that payload. */
  lemma DecodeFrameOfPulses(payload: seq<u8>, short: u32, long: u32)
    requires |payload| == 4 && payload[1] == 0 && payload[3] < 0x10
    requires short < long < TickLimit
    ensures |Pulses(FrameBitsOf(payload), short, long)| == FrameBits
    ensures Bounded(Pulses(FrameBitsOf(payload), short, long))
    ensures DecodeFrame(Pulses(FrameBitsOf(payload), short, long)) == Ok(payload)
  {
    ParsedFrameOfPulses(payload, short, long);
    NormalizedUpdate(payload, 1, 0);
  }

  /** The humidity decimal byte is not looked at: whatever arrives in its
      place, the frame is read as the sensor's payload. */
  lemma HumidityDecimalIgnored(ticks: seq<u32>, payload: seq<u8>, x: u8)
    requires |ticks| == FrameBits && Bounded(ticks)
    requires |payload| == 4 && payload[1] == 0 && payload[3] < 0x10
    requires ParsedFrame(ticks) == FrameBytesOf(payload)[1 := x]
    ensures DecodeFrame(ticks) == Ok(payload)
  {
    NormalizedUpdate(payload, 1, x);
  }

  /** What normalization keeps of a frame with one byte replaced: the byte
      itself unless it is the ignored humidity decimal or the parity byte. */
  lemma NormalizedUpdate(payload: seq<u8>, k: nat, x: u8)
    requires |payload| == 4 && payload[1] == 0 && payload[3] < 0x10
    requires k < 5 && (k == 3 ==> x < 0x10)
    ensures k < 4 && k != 1 ==> Normalized(FrameBytesOf(payload)[k := x]) == payload[k := x]
    ensures k == 1 || k == 4 ==> Normalized(FrameBytesOf(payload)[k := x]) == payload
    ensures Normalized(FrameBytesOf(payload)) == payload
  {
  }

  /** Any other corrupted byte, or corrupted low four bits of the
      temperature decimal, is caught by the parity check. */
  lemma CorruptedByteRejected(ticks: seq<u32>, payload: seq<u8>, k: nat, x: u8)
    requires |ticks| == FrameBits && Bounded(ticks)
    requires |payload| == 4 && payload[1] == 0 && payload[3] < 0x10
    requires k < 5 && k != 1 && x != FrameBytesOf(payload)[k] && (k == 3 ==> x < 0x10)
    requires ParsedFrame(ticks) == FrameBytesOf(payload)[k := x]
    ensures DecodeFrame(ticks) == Err(BadParity)
  {
    NormalizedUpdate(payload, k, x);
    if k < 4 {
      ChecksumDetectsByteChange(payload, k, x);
    }
  }

  /** The DHT11 driver: the data pin in input or output mode, the minimum
      read interval, the time of the last read and the clock. */
  class Dht11 {
    var inputPin: Option<Pin>
    var outputPin: Option<Pin>
    var minimumReadInterval: nat
    var lastReadTime: nat
    const clock: Clock

    ghost predicate Valid()
      reads this, clock
    {
      && inputPin.Some? != outputPin.Some?
      && |Line().levels| < TickLimit
      && lastReadTime <= clock.now
      && minimumReadInterval >= MinimumReadInterval
    }

    /** The data pin, in whichever mode it is. */
    function Line(): (pin: Pin)
      reads this
      requires inputPin.Some? || outputPin.Some?
      ensures pin == if outputPin.Some? then outputPin.value else inputPin.value
    {
      if outputPin.Some? then outputPin.value else inputPin.value
    }

    /** `new`: the pin in output mode and the default read interval. */
    constructor (pin: Pin, clock: Clock)
      requires |pin.levels| < TickLimit
      ensures Valid()
      ensures outputPin == Some(pin) && inputPin == None
      ensures minimumReadInterval == MinimumReadInterval
      ensures this.clock == clock && lastReadTime == clock.now
    {
      inputPin := None;
      outputPin := Some(pin);
      minimumReadInterval := MinimumReadInterval;
      lastReadTime := clock.now;
      this.clock := clock;
    }

    /** Sets the minimum read interval; intervals below the default are
        refused and leave the setting as it was. */
    method SetMinimumReadInterval(readInterval: nat) returns (r: Result<(), Dht11Error>)
      requires Valid()
      modifies this
      ensures Valid()
      ensures r.Ok? <==> readInterval >= MinimumReadInterval
      ensures r.Err? ==> r.error == InvalidArgument
      ensures minimumReadInterval == if r.Ok? then readInterval else old(minimumReadInterval)
      ensures inputPin == old(inputPin) && outputPin == old(outputPin)
      ensures lastReadTime == old(lastReadTime)
    {
      if readInterval < MinimumReadInterval {
        return Err(InvalidArgument);
      }
      minimumReadInterval := readInterval;
      r := Ok(());
    }

    /** Switches the pin back to output mode, driven high, and records the
        time as the last read time. */
    method SwapToOutputMode()
      requires Valid() && inputPin.Some?
      modifies this
      ensures Valid()
      ensures outputPin == Some(Drive(old(inputPin.value), true)) && inputPin == None
      ensures lastReadTime == clock.now && minimumReadInterval == old(minimumReadInterval)
    {
      outputPin := Some(Drive(inputPin.value, true));
      inputPin := None;
      lastReadTime := clock.now;
    }

    /** Pulls the line low for 18 ms to request a frame. */
    method RequestData()
      requires Valid() && outputPin.Some?
      modifies this, clock
      ensures Valid() && outputPin == Some(Drive(old(outputPin.value), false)) && inputPin == None
      ensures lastReadTime == old(lastReadTime) && minimumReadInterval == old(minimumReadInterval)
      ensures clock.now == old(clock.now) + PingDuration
      ensures clock.sleeps == old(clock.sleeps) + [PingDuration]
    {
      outputPin := Some(Drive(outputPin.value, false));
      clock.Sleep(PingDuration);
    }

    /** Samples the response to a request, returns the pin to output mode and
        decodes the frame. */
    method ReceiveData() returns (r: Result<seq<u8>, Dht11Error>)
      requires Valid() && outputPin.Some?
      modifies this
      ensures Valid() && outputPin.Some?
      ensures (r, outputPin.value.levels) == ReceiveSpec(old(outputPin.value.levels))
      ensures outputPin.value.driven == old(outputPin.value.driven) + [true]
      ensures lastReadTime == clock.now && minimumReadInterval == old(minimumReadInterval)
    {
      inputPin := Some(outputPin.value);
      outputPin := None;
      var driven := inputPin.value.driven;
      var levels := inputPin.value.levels;

      var ack, rest := ReadAck(levels);
      if ack.Err? {
        inputPin := Some(Pin(rest, driven));
        SwapToOutputMode();
        return Err(ack.error);
      }
      var bitTimeout: u32 := (ack.value * 4) % 0x1_0000_0000;

      var bits;
      bits, rest := ReadFrameBits(rest, bitTimeout);
      if bits.Err? {
        inputPin := Some(Pin(rest, driven));
        SwapToOutputMode();
        return Err(bits.error);
      }
      inputPin := Some(Pin(rest, driven));
      SwapToOutputMode();

      r := DecodeBits(bits.value);
    }

    /** Reads the sensor: makes sure the pin drives the line high, waits out
        the minimum read interval, requests a frame, receives and decodes
        it. */
    method Read() returns (r: Result<DhtResponse, Dht11Error>)
      requires Valid()
      modifies this, clock
      ensures Valid() && outputPin.Some? && minimumReadInterval == old(minimumReadInterval)
      ensures (r, outputPin.value.levels) == ReadSpec(old(Line().levels))
      ensures outputPin.value.driven
        == old(Line().driven) + (if old(outputPin).None? then [true] else []) + [false, true]
      ensures clock.sleeps == old(clock.sleeps)
        + (var elapsed := old(if outputPin.None? then 0 else clock.now - lastReadTime);
           if elapsed < minimumReadInterval then [minimumReadInterval - elapsed] else [])
        + [PingDuration]
      ensures old(outputPin).Some? ==> clock.now - PingDuration >= old(lastReadTime) + minimumReadInterval
      ensures lastReadTime == clock.now
    {
      if outputPin.None? {
        SwapToOutputMode();
      }
      var elapsed := clock.now - lastReadTime;
      if elapsed < minimumReadInterval {
        clock.Sleep(minimumReadInterval - elapsed);
      }
      RequestData();
      var bytes := ReceiveData();
      if bytes.Err? {
        return Err(bytes.error);
      }
      r := Ok(FromRawBytes(bytes.value));
    }
  }

  /** The decoding tail of receive_data over the sampled bit counts. */
  method DecodeBits(bitTicks: seq<u32>) returns (r: Result<seq<u8>, Dht11Error>)
    requires |bitTicks| == FrameBits && Bounded(bitTicks)
    ensures r == DecodeFrame(bitTicks)
  {
    var threshold := DetermineTickThreshold(bitTicks);
    r := DecodeWithThreshold(bitTicks, threshold);
  }

  /** The bytes parsed against the threshold, then the parity check. */
  method DecodeWithThreshold(bitTicks: seq<u32>, threshold: u32) returns (r: Result<seq<u8>, Dht11Error>)
    requires |bitTicks| == FrameBits
    ensures r == CheckedPayload(ParsedBytes(bitTicks, threshold))
  {
    var highHumidity := ParseByte(bitTicks[0..8], threshold);
    // The sensor always sends 0 here; the byte is not parsed.
    var lowHumidity := 0;
    var highTemp := ParseByte(bitTicks[16..24], threshold);
    // The sensor sends 0-9 here; only the low four bits are kept.
    var lowTempByte := ParseByte(bitTicks[24..32], threshold);
    var lowTemp := lowTempByte % 0x10;
    var parity := ParseByte(bitTicks[32..40], threshold);

    var sum: u16 := highHumidity as int + lowHumidity as int + highTemp as int + lowTemp as int;
    var expectedParity := sum % 0x100;

    var payload := [highHumidity, lowHumidity, highTemp, lowTemp];
    ghost var bytes := [highHumidity, ParsedByte(bitTicks[8..16], threshold), highTemp, lowTempByte, parity];
    ParsedBytesOf(bitTicks, threshold, bytes[0], bytes[1], bytes[2], bytes[3], bytes[4]);
    assert Normalized(bytes) == payload && bytes[4] == parity;
    ChecksumOfBytes(highHumidity, lowHumidity, highTemp, lowTemp);
    if parity != expectedParity {
      return Err(BadParity);
    }
    r := Ok(payload);
  }
}
