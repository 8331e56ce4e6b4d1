/** The DHT data frame: forty pulses, read as five bytes most significant bit
    first (humidity, humidity decimal, temperature, temperature decimal and a
    parity byte that is the low byte of the sum of the other four). */
module DhtFrame {
  import opened Common
  import opened DhtThreshold
  import opened DhtLine

  const FrameBits := 40

  /** The value of `bits`, most significant bit first. */
  function ValueOf(bits: seq<bool>): nat
  {
    if |bits| == 0 then 0
    else 2 * ValueOf(bits[..|bits| - 1]) + (if bits[|bits| - 1] then 1 else 0)
  }

  /** The low `n` bits of `b`, most significant bit first. */
  function BitsOf(b: nat, n: nat): (bits: seq<bool>)
    ensures |bits| == n
  {
    if n == 0 then [] else BitsOf(b / 2, n - 1) + [b % 2 == 1]
  }

  lemma {:induction false} ValueOfBitsOf(b: nat, n: nat)
    requires b < Pow2(n)
    ensures ValueOf(BitsOf(b, n)) == b
  {
    if n > 0 {
      var bits := BitsOf(b, n);
      assert bits[..n - 1] == BitsOf(b / 2, n - 1);
      ValueOfBitsOf(b / 2, n - 1);
    }
  }

  lemma {:induction false} BitsOfValueOf(bits: seq<bool>)
    ensures ValueOf(bits) < Pow2(|bits|)
    ensures BitsOf(ValueOf(bits), |bits|) == bits
  {
    if |bits| > 0 {
      var n := |bits|;
      BitsOfValueOf(bits[..n - 1]);
      assert bits == bits[..n - 1] + [bits[n - 1]];
    }
  }

  /** A number below 2^n - 1 has a zero among its low n bits. */
  lemma {:induction false} BelowAllOnesHasZero(b: nat, n: nat)
    requires b < Pow2(n) - 1
    ensures false in BitsOf(b, n)
  {
    if b % 2 == 1 {
      BelowAllOnesHasZero(b / 2, n - 1);
      assert BitsOf(b, n) == BitsOf(b / 2, n - 1) + [true];
    } else {
      assert BitsOf(b, n)[n - 1] == false;
    }
  }

  /** The bits a threshold reads from pulse lengths: a pulse longer than the
      threshold is a one. */
  function BitsAbove(ticks: seq<u32>, threshold: u32): (bits: seq<bool>)
    ensures |bits| == |ticks|
  {
    seq(|ticks|, i requires 0 <= i < |ticks| => ticks[i] > threshold)
  }

  /** The byte eight pulses encode under `threshold`. */
  function ParsedByte(ticks: seq<u32>, threshold: u32): (b: u8)
    requires |ticks| == 8
    ensures BitsOf(b, 8) == BitsAbove(ticks, threshold)
  {
    BitsOfValueOf(BitsAbove(ticks, threshold));
    ValueOf(BitsAbove(ticks, threshold))
  }

  lemma MulLeft(a: nat, b: nat, c: nat)
    requires a <= b
    ensures a * c <= b * c
  {
  }

  lemma MulBelow(a: nat, b: nat, c: nat)
    requires a < b && c >= 1
    ensures a * c < b * c
  {
  }

  lemma Pow2Byte()
    ensures Pow2(8) == 0x100
  {
  }

  lemma ValueOfStep(bits: seq<bool>, i: nat)
    requires i < |bits|
    ensures ValueOf(bits[..i + 1]) == 2 * ValueOf(bits[..i]) + (if bits[i] then 1 else 0)
  {
    assert bits[..i + 1][..i] == bits[..i];
  }

  lemma Distribute(v: nat, w: nat, c: nat, p: nat)
    requires v == 2 * w + c
    ensures v * p == w * (2 * p) + c * p
  {
  }

  lemma ParseStep(bits: seq<bool>, i: nat)
    requires |bits| == 8 && i < 8
    ensures ValueOf(bits[..i + 1]) * Pow2(7 - i)
              == ValueOf(bits[..i]) * Pow2(8 - i) + (if bits[i] then Pow2(7 - i) else 0)
    ensures ValueOf(bits[..i + 1]) * Pow2(7 - i) < 0x100
  {
    var v := ValueOf(bits[..i + 1]);
    var p := Pow2(7 - i);
    ValueOfStep(bits, i);
    assert Pow2(8 - i) == 2 * p;
    Distribute(v, ValueOf(bits[..i]), if bits[i] then 1 else 0, p);
    PrefixBound(bits, i);
  }

  /** The byte after bit i is or-ed in, as parse_byte's loop keeps it. */
  lemma ParseNext(bits: seq<bool>, i: nat, byte: nat)
    requires |bits| == 8 && i < 8 && byte == ValueOf(bits[..i]) * Pow2(8 - i)
    ensures var next := if bits[i] then byte + Pow2(7 - i) else byte;
      next == ValueOf(bits[..i + 1]) * Pow2(8 - (i + 1)) && next < 0x100
  {
    ParseStep(bits, i);
  }

  /** The first i + 1 bits, shifted into place, still fit in a byte. */
  lemma PrefixBound(bits: seq<bool>, i: nat)
    requires |bits| == 8 && i < 8
    ensures ValueOf(bits[..i + 1]) * Pow2(7 - i) < 0x100
  {
    var prefix := bits[..i + 1];
    var v := ValueOf(prefix);
    var p := Pow2(7 - i);
    var q := Pow2(i + 1);
    BitsOfValueOf(prefix);
    MulBelow(v, q, p);
    Pow2Add(i + 1, 7 - i);
    Pow2Byte();
  }

  /** parse_byte: bit 7 - i of the byte is set when pulse i is longer than the
      threshold. */
  method ParseByte(bitTicks: seq<u32>, threshold: u32) returns (byte: u8)
    requires |bitTicks| == 8
    ensures byte == ParsedByte(bitTicks, threshold)
  {
    ghost var bits := BitsAbove(bitTicks, threshold);
    byte := 0;
    for i := 0 to 8
      invariant byte == ValueOf(bits[..i]) * Pow2(8 - i)
    {
      ParseNext(bits, i, byte);
      if bitTicks[i] > threshold {
        // bit 7 - i is still clear, so or-ing it in is an addition
        byte := byte + Pow2(7 - i);
      }
    }
    assert bits[..8] == bits;
  }

  /** `to_be_bytes` of a u16: the high byte, then the low byte, which
      recombine to the value. */
  function BeBytes16(s: u16): (bytes: seq<u8>)
    ensures |bytes| == 2 && bytes[0] as int * 0x100 + bytes[1] as int == s
  {
    [s / 0x100, s % 0x100]
  }

  /** The parity byte: byte 1 of the big-endian bytes of the 16-bit sum of
      the payload. */
  function Checksum(payload: seq<u8>): (parity: u8)
    requires |payload| == 4
  {
    var sum: u16 := payload[0] as int + payload[1] as int + payload[2] as int + payload[3] as int;
    BeBytes16(sum)[1]
  }

  /** The parity of four bytes is their sum modulo 0x100. */
  lemma ChecksumOfBytes(b0: u8, b1: u8, b2: u8, b3: u8)
    ensures Checksum([b0, b1, b2, b3]) == (b0 as int + b1 as int + b2 as int + b3 as int) % 0x100
  {
    var payload := [b0, b1, b2, b3];
    assert payload[0] == b0 && payload[1] == b1 && payload[2] == b2 && payload[3] == b3;
  }

  /** Changing any one payload byte changes the parity byte: the two sums
      differ by less than 0x100 and by more than zero. */
  lemma ChecksumDetectsByteChange(payload: seq<u8>, k: nat, x: u8)
    requires |payload| == 4 && k < 4 && x != payload[k]
    ensures Checksum(payload[k := x]) != Checksum(payload)
  {
    var changed := payload[k := x];
    var a := payload[0] as int + payload[1] as int + payload[2] as int + payload[3] as int;
    var b := changed[0] as int + changed[1] as int + changed[2] as int + changed[3] as int;
    assert b - a == x - payload[k];
  }

  /** The five bytes a sensor sends: the payload and its parity byte. */
  function FrameBytesOf(payload: seq<u8>): (bytes: seq<u8>)
    requires |payload| == 4
    ensures |bytes| == 5
  {
    payload + [Checksum(payload)]
  }

  /** The forty bits a sensor sends, each byte most significant bit first. */
  function FrameBitsOf(payload: seq<u8>): (bits: seq<bool>)
    requires |payload| == 4
    ensures |bits| == FrameBits
  {
    var bytes := FrameBytesOf(payload);
    seq(FrameBits, i requires 0 <= i < FrameBits => BitsOf(bytes[i / 8], 8)[i % 8])
  }

  lemma FrameByteSlice(payload: seq<u8>, k: nat)
    requires |payload| == 4 && k < 5
    ensures FrameBitsOf(payload)[8 * k..8 * k + 8] == BitsOf(FrameBytesOf(payload)[k], 8)
  {
    var bits := FrameBitsOf(payload);
    forall j | 0 <= j < 8
      ensures bits[8 * k + j] == BitsOf(FrameBytesOf(payload)[k], 8)[j]
    {
      assert (8 * k + j) / 8 == k && (8 * k + j) % 8 == j;
    }
  }

  /** Every frame with a correct parity byte has a zero bit: four bytes of
      0xFF have parity 0xFC. */
  lemma FrameHasZero(payload: seq<u8>)
    requires |payload| == 4
    ensures false in FrameBitsOf(payload)
  {
    var bytes := FrameBytesOf(payload);
    var k: nat;
    if payload[0] < 0xFF {
      k := 0;
    } else if payload[1] < 0xFF {
      k := 1;
    } else if payload[2] < 0xFF {
      k := 2;
    } else if payload[3] < 0xFF {
      k := 3;
    } else {
      k := 4;
      assert Checksum(payload) == 0xFC;
    }
    Pow2Byte();
    BelowAllOnesHasZero(bytes[k], 8);
    FrameByteSlice(payload, k);
    var j :| 0 <= j < 8 && !BitsOf(bytes[k], 8)[j];
    assert !FrameBitsOf(payload)[8 * k + j];
  }

  lemma BitsAboveSlice(ticks: seq<u32>, threshold: u32, a: nat, b: nat)
    requires a <= b <= |ticks|
    ensures BitsAbove(ticks[a..b], threshold) == BitsAbove(ticks, threshold)[a..b]
  {
  }

  /** Byte `k` read back from the pulses of a frame whose bits the threshold
      recovers is byte `k` of the frame. */
  lemma FrameBytesRecovered(payload: seq<u8>, ticks: seq<u32>, threshold: u32, k: nat)
    requires |payload| == 4 && k < 5 && BitsAbove(ticks, threshold) == FrameBitsOf(payload)
    ensures ParsedByte(ticks[8 * k..8 * k + 8], threshold) == FrameBytesOf(payload)[k]
  {
    BitsAboveSlice(ticks, threshold, 8 * k, 8 * k + 8);
    FrameByteSlice(payload, k);
    Pow2Byte();
    ValueOfBitsOf(FrameBytesOf(payload)[k], 8);
  }

  /** Pulse lengths of an ideal line: every zero bit lasts `short` ticks and
      every one bit `long` ticks. */
  function Pulses(bits: seq<bool>, short: u32, long: u32): (ticks: seq<u32>)
    ensures |ticks| == |bits|
  {
    seq(|bits|, i requires 0 <= i < |bits| => if bits[i] then long else short)
  }

  lemma {:induction false} NoPeaksBetween(h: seq<nat>, m: nat, n: nat)
    requires |h| == BucketCount && m <= n <= BucketCount
    requires forall i :: m <= i < n ==> !IsPeak(h, i)
    ensures PeaksBelow(h, n) == PeaksBelow(h, m)
  {
    if m < n {
      NoPeaksBetween(h, m, n - 1);
    }
  }

  /** With two pulse lengths the threshold separates them: zero bits are at
      or below it and one bits above it, so the bits are read back. */
  lemma TwoLevelRecovery(bits: seq<bool>, short: u32, long: u32)
    requires false in bits && short < long < TickLimit
    ensures BitsAbove(Pulses(bits, short, long), TickThreshold(Pulses(bits, short, long))) == bits
  {
    var ticks := Pulses(bits, short, long);
    var threshold := TickThreshold(ticks);
    LowestIsMinimum(ticks);
    HighestIsMaximum(ticks);
    var z :| 0 <= z < |bits| && !bits[z];
    assert ticks[z] == short;
    var lo := Lowest(ticks);
    var hi := Highest(ticks);
    assert lo == short;
    if true in bits {
      var o :| 0 <= o < |bits| && bits[o];
      assert ticks[o] == long;
      assert hi == long;
      ShortLongThreshold(ticks, short, long);
    } else {
      assert hi == short;
    }
  }

  lemma DivLowerBound(x: nat, y: nat, k: nat)
    requires 0 < y && k * y <= x
    ensures k <= x / y
  {
    if x / y < k {
      assert x == (x / y) * y + x % y;
      MulLeft(x / y + 1, k, y);
    }
  }

  /** The non-empty buckets of `h` are `x` and `y`. */
  predicate OccupiedExactly(h: seq<nat>, x: nat, y: nat)
  {
    forall b :: 0 <= b < |h| ==> (h[b] > 0 <==> b == x || b == y)
  }

  /** With pulses of two lengths only the first bucket and the bucket of the
      longer pulse, which is in the upper half, are occupied. */
  lemma TwoLevelHistogram(ticks: seq<u32>, short: u32, long: u32)
    requires short < long < TickLimit
    requires forall i :: 0 <= i < |ticks| ==> ticks[i] == short || ticks[i] == long
    requires short in ticks && long in ticks
    ensures 5 <= BucketIndex(long, short, long - short + 1)
    ensures OccupiedExactly(Histogram(ticks, short, long - short + 1), 0,
                            BucketIndex(long, short, long - short + 1))
  {
    var range: u32 := long - short + 1;
    var h := Histogram(ticks, short, range);
    var top := BucketIndex(long, short, range);
    DivLowerBound((long - short) * BucketCount, range, 5);
    assert BucketIndex(short, short, range) == 0;
    forall b | 0 <= b < BucketCount
      ensures h[b] > 0 <==> b == 0 || b == top
    {
      HistogramOccupied(ticks, short, range, b);
      if b == 0 || b == top {
        var i :| 0 <= i < |ticks| && ticks[i] == (if b == 0 then short else long);
        assert BucketIndex(ticks[i], short, range) == b;
      }
    }
  }

  /** Such a histogram has exactly the two occupied buckets as peaks. */
  lemma TwoPeaks(h: seq<nat>, top: nat)
    requires |h| == BucketCount && 5 <= top < BucketCount && OccupiedExactly(h, 0, top)
    ensures PeaksBelow(h, BucketCount) == [Peak(0, h[0]), Peak(top, h[top])]
  {
    assert h[1] == 0 && h[top - 1] == 0;
    assert IsPeak(h, 0);
    assert top < BucketCount - 1 ==> h[top + 1] == 0;
    assert IsPeak(h, top);
    assert forall i :: 1 <= i < top ==> h[i] == 0;
    assert forall i :: top < i < BucketCount ==> h[i] == 0;
    NoPeaksBetween(h, 1, top);
    NoPeaksBetween(h, top + 1, BucketCount);
    assert PeaksBelow(h, 1) == PeaksBelow(h, 0) + [Peak(0, h[0])];
    assert PeaksBelow(h, top + 1) == PeaksBelow(h, top) + [Peak(top, h[top])];
  }

  /** The threshold of pulses of exactly two lengths lies below the longer. */
  lemma ShortLongThreshold(ticks: seq<u32>, short: u32, long: u32)
    requires short < long < TickLimit
    requires forall i :: 0 <= i < |ticks| ==> ticks[i] == short || ticks[i] == long
    requires short in ticks && long in ticks
    ensures TickThreshold(ticks) < long
  {
    LowestIsMinimum(ticks);
    HighestIsMaximum(ticks);
    assert Lowest(ticks) == short && Highest(ticks) == long;
    var range := long - short + 1;
    var h := Histogram(ticks, short, range);
    var top := BucketIndex(long, short, range);
    TwoLevelHistogram(ticks, short, long);
    TwoPeaks(h, top);
    SelectedPeaks(h);
    var table := PeakTable(h);
    var chosen := RankAll(table, table[BucketCount - 1]);
    var peaks := PeaksBelow(h, BucketCount);
    assert chosen.0 == peaks[0] || chosen.0 == peaks[1];
    assert chosen.1 == peaks[0] || chosen.1 == peaks[1];
    var low := IndexToTicks(0, short, long, range);
    assert low < long;
    var high := IndexToTicks(top, short, long, range);
    assert TickThreshold(ticks) == (high + low) / 2;
  }
  /** The five bytes parsed from the bit counts against a threshold. */
  function ParsedBytes(ticks: seq<u32>, threshold: u32): (bytes: seq<u8>)
    requires |ticks| == FrameBits
    ensures |bytes| == 5
  {
    seq(5, k requires 0 <= k < 5 => ParsedByte(ticks[8 * k..8 * k + 8], threshold))
  }

  /** The five bytes the drivers parse from the bit counts. */
  function ParsedFrame(ticks: seq<u32>): (bytes: seq<u8>)
    requires |ticks| == FrameBits && Bounded(ticks)
    ensures |bytes| == 5
  {
    ParsedBytes(ticks, TickThreshold(ticks))
  }

  /** The parsed bytes are the five bytes parsed one slice at a time. */
  lemma ParsedBytesOf(ticks: seq<u32>, threshold: u32, b0: u8, b1: u8, b2: u8, b3: u8, b4: u8)
    requires |ticks| == FrameBits
    requires b0 == ParsedByte(ticks[0..8], threshold)
    requires b1 == ParsedByte(ticks[8..16], threshold)
    requires b2 == ParsedByte(ticks[16..24], threshold)
    requires b3 == ParsedByte(ticks[24..32], threshold)
    requires b4 == ParsedByte(ticks[32..40], threshold)
    ensures ParsedBytes(ticks, threshold) == [b0, b1, b2, b3, b4]
  {
  }

  /** The five parse_byte calls of receive_data, one per 8-count slice. */
  method ParseFrame(bitTicks: seq<u32>, threshold: u32) returns (bytes: seq<u8>)
    requires |bitTicks| == FrameBits
    ensures bytes == ParsedBytes(bitTicks, threshold)
  {
    var b0 := ParseByte(bitTicks[0..8], threshold);
    var b1 := ParseByte(bitTicks[8..16], threshold);
    var b2 := ParseByte(bitTicks[16..24], threshold);
    var b3 := ParseByte(bitTicks[24..32], threshold);
    var b4 := ParseByte(bitTicks[32..40], threshold);
    ParsedBytesOf(bitTicks, threshold, b0, b1, b2, b3, b4);
    bytes := [b0, b1, b2, b3, b4];
  }

  /** The five bytes of a frame sent with two pulse lengths are read back,
      and the threshold is at least the short length. */
  lemma ParsedFrameOfPulses(payload: seq<u8>, short: u32, long: u32)
    requires |payload| == 4 && short < long < TickLimit
    ensures ParsedFrame(Pulses(FrameBitsOf(payload), short, long)) == FrameBytesOf(payload)
    ensures short <= TickThreshold(Pulses(FrameBitsOf(payload), short, long))
  {
    var bits := FrameBitsOf(payload);
    var ticks := Pulses(bits, short, long);
    FrameHasZero(payload);
    TwoLevelRecovery(bits, short, long);
    var threshold := TickThreshold(ticks);
    forall k | 0 <= k < 5
      ensures ParsedFrame(ticks)[k] == FrameBytesOf(payload)[k]
    {
      FrameBytesRecovered(payload, ticks, threshold, k);
    }
    var z :| 0 <= z < |bits| && !bits[z];
    LowestIsMinimum(ticks);
    assert ticks[z] == short;
  }

  /** The tick counts sampled from the pulses of `bits` are the two pulse
      lengths. */
  lemma PulseTicksArePulses(bits: seq<bool>, zero: (nat, nat), one: (nat, nat))
    requires zero.0 + zero.1 < TickLimit && one.0 + one.1 < TickLimit
    ensures PulseTicks(bits, zero, one) == Pulses(bits, zero.0 + zero.1, one.0 + one.1)
  {
    var ticks := PulseTicks(bits, zero, one);
    forall i | 0 <= i < |bits|
      ensures ticks[i] == Pulses(bits, zero.0 + zero.1, one.0 + one.1)[i]
    {
      PulseTicksAt(bits, zero, one, i);
    }
  }
}
