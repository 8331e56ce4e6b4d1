/** The one-wire bus as the DS18B20 driver uses it: the reset and presence
    check, and bytes written and read one time slot per bit, least
    significant bit first.

    The bus is modelled by the levels successive `is_high` / `is_low` queries
    observe (each query consumes one sample, and a query with no sample left
    is a failed read of the pin) and by the trace of what the host does on
    the line: drive it high or low, release it to input mode, wait a number
    of microseconds, sample it. */
module OneWire {
  import opened Common

  /** The errors of the DS18B20 driver. */
  datatype Ds18b20Error = WrappedDelay | WrappedIo | WrappedInput | WrappedOutput | NoSensorsFound | BadData

  /** One step of the host on the line. */
  datatype Event = Drive(high: bool) | Release | Wait(us: nat) | Sample

  /** The samples the line will show and the host's trace so far. */
  datatype Line = Line(samples: seq<bool>, trace: seq<Event>)

  const ResetTime := 480
  const PresencePulseDelay := 30
  const PostPresencePulseDelay := ResetTime - PresencePulseDelay - PresencePulseDelay
  const RecoveryTime := 1
  const MinSlotDuration := 60
  const Write1Duration := 1
  const Write1PostBitDelay := MinSlotDuration - Write1Duration
  const Write0Duration := 60
  const ReadRequestDuration := 1
  const ReadSampleDelay := 15 - ReadRequestDuration
  const ReadPostSampleDelay := MinSlotDuration - ReadSampleDelay

  /** A device samples a write slot this many microseconds after the host
      pulls the line low: a line released before then is a one. */
  const DeviceSampleTime := 15

  /** The trace of a reset that found a device: the reset pulse, two
      presence samples, then the wait for the presence pulse to end. */
  function ResetEvents(): seq<Event>
  {
    [Drive(false), Wait(ResetTime), Drive(true), Release,
     Wait(PresencePulseDelay), Sample, Wait(PresencePulseDelay), Sample,
     Wait(PostPresencePulseDelay)]
  }

  /** reset: the line is released after the reset pulse and sampled twice; a
      device is present when either sample is low. */
  function Reset(line: Line): (r: Result<Line, Ds18b20Error>)
    ensures r.Err? <==> |line.samples| < 2 || (line.samples[0] && line.samples[1])
    ensures r.Err? && r.error == NoSensorsFound <==> |line.samples| >= 2 && line.samples[0] && line.samples[1]
    ensures r.Err? && r.error != NoSensorsFound ==> r.error == WrappedInput
    ensures r.Ok? ==> r.value.samples == line.samples[2..]
    ensures r.Ok? ==> r.value.trace == line.trace + ResetEvents()
  {
    if |line.samples| < 2 then Err(WrappedInput)
    else
      var isPresent := !line.samples[0] || !line.samples[1];
      if !isPresent then Err(NoSensorsFound)
      else Ok(Line(line.samples[2..], line.trace + ResetEvents()))
  }

  /** The trace of a write slot: a zero holds the line low for the whole
      slot, a one releases it after a microsecond and waits out the slot. */
  function WriteBitEvents(bit: u8): (events: seq<Event>)
  {
    [Drive(true), Wait(RecoveryTime), Drive(false),
     Wait(if bit == 0 then Write0Duration else Write1Duration), Drive(true)]
    + (if bit != 0 then [Wait(Write1PostBitDelay)] else [])
  }

  /** `x` shifted right by `n` bits. */
  function Shr(x: nat, n: nat): nat
  {
    if n == 0 then x else Shr(x / 2, n - 1)
  }

  /** The low `n` bits of `x`, least significant first. */
  function LsbBits(x: nat, n: nat): (bits: seq<bool>)
    ensures |bits| == n
  {
    if n == 0 then [] else [x % 2 == 1] + LsbBits(x / 2, n - 1)
  }

  /** The value of bits given least significant first. */
  function FromLsbBits(bits: seq<bool>): nat
  {
    if |bits| == 0 then 0 else (if bits[0] then 1 else 0) + 2 * FromLsbBits(bits[1..])
  }

  /** The write slots of a sequence of bits, one after the other. */
  function WriteBitsEvents(bits: seq<bool>): seq<Event>
  {
    if |bits| == 0 then []
    else WriteBitsEvents(bits[..|bits| - 1]) + WriteBitEvents(if bits[|bits| - 1] then 1 else 0)
  }

  /** The trace of write_byte: the pin switched to output, high, then the
      eight write slots, least significant bit first. */
  function WriteByteEvents(byte: u8): seq<Event>
  {
    [Drive(true)] + WriteBitsEvents(LsbBits(byte, 8))
  }

  /** The bits a device reads from a trace: after each falling edge, the
      line is a one if the host releases it before the device samples. */
  function DeviceBits(events: seq<Event>): seq<bool>
  {
    if |events| < 2 then []
    else if events[0] == Drive(false) && events[1].Wait? then
      [events[1].us < DeviceSampleTime] + DeviceBits(events[2..])
    else DeviceBits(events[1..])
  }

  /** write_byte: eight write slots, shifting the byte right after each. */
  method WriteByte(byte: u8, line: Line) returns (out: Line)
    ensures out.samples == line.samples
    ensures out.trace == line.trace + WriteByteEvents(byte)
  {
    ghost var bits := LsbBits(byte, 8);
    var b := byte;
    out := line.(trace := line.trace + [Drive(true)]);
    for i := 0 to 8
      invariant b == Shr(byte, i)
      invariant out.samples == line.samples
      invariant out.trace == line.trace + [Drive(true)] + WriteBitsEvents(bits[..i])
    {
      LsbBitsAt(byte, 8, i);
      ShrStep(byte, i);
      assert bits[..i + 1][..i] == bits[..i];
      out := out.(trace := out.trace + WriteBitEvents(b % 2));
      b := b / 2;
    }
    assert bits[..8] == bits;
  }

  lemma {:induction false} ShrStep(x: nat, i: nat)
    ensures Shr(x, i) / 2 == Shr(x, i + 1)
  {
    if i > 0 {
      ShrStep(x / 2, i - 1);
    }
  }

  /** Bit i of the list is bit i of the number. */
  lemma {:induction false} LsbBitsAt(x: nat, n: nat, i: nat)
    requires i < n
    ensures LsbBits(x, n)[i] == (Shr(x, i) % 2 == 1)
  {
    if i > 0 {
      LsbBitsAt(x / 2, n - 1, i - 1);
    }
  }

  /** The trace of a read slot: a one-microsecond request, the line released
      and sampled fifteen microseconds after the falling edge, the rest of
      the slot waited out with the pin back in output mode. */
  function ReadBitEvents(): seq<Event>
  {
    [Drive(true), Wait(RecoveryTime), Drive(false), Wait(ReadRequestDuration), Drive(true), Release,
     Wait(ReadSampleDelay), Sample, Drive(true), Wait(ReadPostSampleDelay)]
  }

  function ReadBitsEvents(n: nat): seq<Event>
  {
    if n == 0 then [] else ReadBitsEvents(n - 1) + ReadBitEvents()
  }

  /** read_byte: eight read slots, the bit of slot k added as bit k. A
      missing sample fails the read. */
  function ReadByteSpec(line: Line): (r: Result<(u8, Line), Ds18b20Error>)
    ensures r.Ok? <==> |line.samples| >= 8
    ensures r.Err? ==> r.error == WrappedInput
  {
    if |line.samples| < 8 then Err(WrappedInput)
    else
      FromLsbBitsBound(line.samples[..8]);
      Ok((FromLsbBits(line.samples[..8]),
          Line(line.samples[8..], line.trace + [Drive(true)] + ReadBitsEvents(8))))
  }

  lemma {:induction false} FromLsbBitsBound(bits: seq<bool>)
    ensures FromLsbBits(bits) < Pow2(|bits|)
  {
    if |bits| > 0 {
      FromLsbBitsBound(bits[1..]);
    }
  }

  /** Adding a more significant bit: the snoc form of FromLsbBits, as the
      loop of read_byte computes it. */
  lemma {:induction false} FromLsbBitsSnoc(bits: seq<bool>, b: bool)
    ensures FromLsbBits(bits + [b]) == FromLsbBits(bits) + (if b then Pow2(|bits|) else 0)
  {
    if |bits| > 0 {
      assert (bits + [b])[1..] == bits[1..] + [b];
      FromLsbBitsSnoc(bits[1..], b);
    }
  }

  method ReadByte(line: Line) returns (r: Result<(u8, Line), Ds18b20Error>)
    ensures r == ReadByteSpec(line)
  {
    var byte: u8 := 0;
    var out := line.(trace := line.trace + [Drive(true)]);
    for k := 0 to 8
      invariant |line.samples| >= k
      invariant byte == FromLsbBits(line.samples[..k])
      invariant out == Line(line.samples[k..], line.trace + [Drive(true)] + ReadBitsEvents(k))
    {
      // read_bit
      if |out.samples| == 0 {
        return Err(WrappedInput);
      }
      var bit := out.samples[0];
      out := Line(out.samples[1..], out.trace + ReadBitEvents());
      assert line.samples[..k + 1] == line.samples[..k] + [bit];
      FromLsbBitsSnoc(line.samples[..k], bit);
      FromLsbBitsBound(line.samples[..k + 1]);
      Pow2Monotone(k + 1, 8);
      byte := byte + (if bit then Pow2(k) else 0);
    }
    r := Ok((byte, out));
  }

  /** The bits of a number below 2^n, read back least significant first,
      give the number. */
  lemma {:induction false} LsbBitsRoundTrip(x: nat, n: nat)
    requires x < Pow2(n)
    ensures FromLsbBits(LsbBits(x, n)) == x
  {
    if n > 0 {
      LsbBitsRoundTrip(x / 2, n - 1);
    }
  }

  /** A read of the bits a byte is written as returns that byte. */
  lemma ReadByteOfWritten(byte: u8, rest: seq<bool>, trace: seq<Event>)
    ensures ReadByteSpec(Line(LsbBits(byte, 8) + rest, trace)).Ok?
    ensures ReadByteSpec(Line(LsbBits(byte, 8) + rest, trace)).value.0 == byte
    ensures ReadByteSpec(Line(LsbBits(byte, 8) + rest, trace)).value.1.samples == rest
  {
    var samples := LsbBits(byte, 8) + rest;
    assert samples[..8] == LsbBits(byte, 8);
    assert samples[8..] == rest;
    assert Pow2(8) == 0x100;
    LsbBitsRoundTrip(byte, 8);
  }

  lemma {:induction false} DeviceBitsAppend(a: seq<Event>, b: seq<Event>)
    requires |a| == 0 || a[|a| - 1] != Drive(false)
    ensures DeviceBits(a + b) == DeviceBits(a) + DeviceBits(b)
  {
    var ab := a + b;
    if |a| == 0 {
      assert ab == b;
    } else if |a| == 1 {
      if |b| > 0 {
        assert ab[1..] == b;
        assert DeviceBits(ab) == DeviceBits(ab[1..]);
      }
    } else if a[0] == Drive(false) && a[1].Wait? {
      assert ab[0] == a[0] && ab[1] == a[1];
      assert ab[2..] == a[2..] + b;
      DeviceBitsAppend(a[2..], b);
      assert DeviceBits(ab) == [a[1].us < DeviceSampleTime] + DeviceBits(ab[2..]);
    } else {
      assert ab[0] == a[0] && ab[1] == a[1];
      assert ab[1..] == a[1..] + b;
      DeviceBitsAppend(a[1..], b);
      assert DeviceBits(ab) == DeviceBits(ab[1..]);
    }
  }

  /** The one falling edge of a write slot is followed by its low time. */
  lemma DeviceBitsOfWriteBit(bit: u8)
    ensures DeviceBits(WriteBitEvents(bit)) == [bit != 0]
  {
    var e := WriteBitEvents(bit);
    assert e[1..][1..] == e[2..] && e[2..][2..] == e[4..] && e[4..][1..] == e[5..];
    assert DeviceBits(e) == DeviceBits(e[1..]) == DeviceBits(e[2..]);
    assert DeviceBits(e[2..]) == [bit != 0] + DeviceBits(e[4..]);
    if bit != 0 {
      assert DeviceBits(e[4..]) == DeviceBits(e[5..]) == [];
    }
  }

  lemma {:induction false} DeviceBitsOfWriteBits(bits: seq<bool>)
    ensures DeviceBits(WriteBitsEvents(bits)) == bits
  {
    if |bits| > 0 {
      var n := |bits|;
      var last: u8 := if bits[n - 1] then 1 else 0;
      DeviceBitsOfWriteBits(bits[..n - 1]);
      LastOfWriteBits(bits[..n - 1]);
      DeviceBitsAppend(WriteBitsEvents(bits[..n - 1]), WriteBitEvents(last));
      DeviceBitsOfWriteBit(last);
      assert bits == bits[..n - 1] + [bits[n - 1]];
    }
  }

  lemma LastOfWriteBits(bits: seq<bool>)
    ensures var e := WriteBitsEvents(bits); |e| == 0 || e[|e| - 1] != Drive(false)
  {
  }

  /** What a device reads from the slots of write_byte is the byte, least
      significant bit first. */
  lemma DeviceReadsWrittenByte(byte: u8)
    ensures DeviceBits(WriteByteEvents(byte)) == LsbBits(byte, 8)
    ensures FromLsbBits(DeviceBits(WriteByteEvents(byte))) == byte
  {
    DeviceBitsAppend([Drive(true)], WriteBitsEvents(LsbBits(byte, 8)));
    DeviceBitsOfWriteBits(LsbBits(byte, 8));
    assert Pow2(8) == 0x100;
    LsbBitsRoundTrip(byte, 8);
  }
}
