/** The DS18B20 temperature sensor: decoding of its 16-bit two's complement
    temperature register, the resolution settings, the 64-bit ROM code, the
    scratchpad check and the read sequence over the one-wire bus. */
module Ds18b20 {
  import opened Common
  import opened OneWire
  import opened DallasCrc

  // ---------------------------------------------------------------------
  // Temperature

  /** A reading: a whole-degree part and a part in sixteenths of a degree,
      both negative for temperatures below zero. */
  datatype Temperature = Temperature(decimal: i8, integer: i16)

  /** The register value, in sixteenths of a degree: the two bytes read as
      a 16-bit two's complement number. */
  function Raw(low: u8, high: u8): int
  {
    if high >= 0x80 then high * 0x100 + low - 0x1_0000 else high * 0x100 + low
  }

  /** The readings from_bytes can produce: the fields are private, so these
      are the only temperatures there are. */
  predicate InRange(t: Temperature)
  {
    -16 <= t.decimal < 16 && -0x800 < t.integer < 0x800
  }

  /** from_bytes: the decimal part is the low four bits of the register,
      sign-extended for a negative temperature, and the integer part takes the
      rest, so that together they give the register value. */
  function FromBytes(low: u8, high: u8): (t: Temperature)
    ensures t.integer * 16 + t.decimal == Raw(low, high)
    ensures high < 0x80 ==> 0 <= t.decimal < 16
    ensures high >= 0x80 ==> -16 <= t.decimal < 0
    ensures InRange(t)
  {
    if high > 0x7F then
      var signedHigh := high - 0x100;
      Temperature(low % 0x10 - 0x10, signedHigh * 16 + low / 0x10 + 1)
    else
      Temperature(low % 0x10, high * 16 + low / 0x10)
  }

  /** The decoding is one-to-one: a reading determines its register. */
  lemma FromBytesInjective(low: u8, high: u8, low': u8, high': u8)
    requires FromBytes(low, high) == FromBytes(low', high')
    ensures low == low' && high == high'
  {
    assert Raw(low, high) == Raw(low', high');
  }

  /** The readings of the examples the source's tests check. */
  lemma FromBytesExamples()
    ensures FromBytes(0xF9, 0x12) == Temperature(9, 0x12F)
    ensures FromBytes(0x6E, 0xFE) == Temperature(-2, -25)
    ensures FromBytes(0xF0, 0xFF).integer == 0 && FromBytes(0xF1, 0xFF) == Temperature(-15, 0)
    ensures FromBytes(0xF8, 0x12) == Temperature(8, 0x12F) && FromBytes(0xF7, 0x12) == Temperature(7, 0x12F)
    ensures FromBytes(0x68, 0xFE) == Temperature(-8, -25)
  {
  }

  function Signum(d: int): int
  {
    if d > 0 then 1 else if d < 0 then -1 else 0
  }

  function Abs(d: int): nat
  {
    if d < 0 then -d else d
  }

  /** The reference rounding: a value in sixteenths to the nearest whole
      number, halves away from zero. */
  function RoundSixteenths(v: int): int
  {
    if v >= 0 then (v + 8) / 16 else -((-v + 8) / 16)
  }

  /** nearest_integer as written: the integer part moved one step away from
      zero when the decimal part is at least eight sixteenths. */
  function NearestInteger(t: Temperature): (n: int)
    requires InRange(t)
  {
    t.integer + Signum(t.decimal) * (Abs(t.decimal) / 8)
  }

  /** As written, the rounding is right except for whole negative degrees,
      whose decimal part is -16: those come out one degree too low. */
  lemma NearestIntegerAsWritten(low: u8, high: u8)
    ensures var raw := Raw(low, high);
      NearestInteger(FromBytes(low, high))
        == RoundSixteenths(raw) - (if raw < 0 && raw % 16 == 0 then 1 else 0)
  {
    var t := FromBytes(low, high);
    if high < 0x80 {
      assert NearestInteger(t) == t.integer + t.decimal / 8;
      RoundAbove(t.integer, t.decimal);
    } else {
      assert NearestInteger(t) == t.integer - -t.decimal / 8;
      RoundBelow(t.integer, t.decimal);
    }
  }

  /** For a reading at or above zero, a decimal part of eight or more
      sixteenths rounds up. */
  lemma RoundAbove(i: int, d: int)
    requires 0 <= d < 16 && 16 * i + d >= 0
    ensures RoundSixteenths(16 * i + d) == i + d / 8
  {
    SixteenthsShift(i, d + 8);
  }

  /** For a reading below zero, a decimal part of eight or more sixteenths
      rounds down, and the whole sixteen of a whole degree counts once. */
  lemma RoundBelow(i: int, d: int)
    requires -16 <= d < 0 && 16 * i + d < 0
    ensures RoundSixteenths(16 * i + d) == i - -d / 8 + (if d == -16 then 1 else 0)
    ensures (16 * i + d) % 16 == 0 <==> d == -16
  {
    SixteenthsShift(-i, -d + 8);
    SixteenthsShift(i - 1, 16 + d);
  }

  lemma SixteenthsShift(m: int, r: nat)
    ensures (16 * m + r) / 16 == m + r / 16 && (16 * m + r) % 16 == r % 16
  {
  }

  /** -1.0 degrees (register 0xFFF0) is rounded to -2. */
  lemma NearestIntegerMinusOne()
    ensures Raw(0xF0, 0xFF) == -16 && RoundSixteenths(-16) == -1
    ensures NearestInteger(FromBytes(0xF0, 0xFF)) == -2
  {
  }

  /** The rounding the source's tests describe: a decimal part of eight or
      more sixteenths, or a whole negative degree, moves the integer part
      one step away from zero. */
  function NearestIntegerCorrected(t: Temperature): (n: int)
    requires InRange(t)
  {
    t.integer + Signum(t.decimal) * ((Abs(t.decimal) + 8) / 16)
  }

  /** The corrected rounding is rounding to nearest, halves away from zero,
      on every register value. */
  lemma NearestIntegerCorrectedRounds(low: u8, high: u8)
    ensures NearestIntegerCorrected(FromBytes(low, high)) == RoundSixteenths(Raw(low, high))
  {
    var t := FromBytes(low, high);
    if high < 0x80 {
      assert NearestIntegerCorrected(t) == t.integer + (t.decimal + 8) / 16;
      RoundAbove(t.integer, t.decimal);
    } else {
      assert NearestIntegerCorrected(t) == t.integer - (-t.decimal + 8) / 16;
      RoundBelow(t.integer, t.decimal);
    }
  }

  /** The rounding examples of the source's tests (their registers are
      decoded in FromBytesExamples). */
  lemma NearestIntegerExamples()
    ensures NearestInteger(Temperature(8, 0x12F)) == 0x130
    ensures NearestInteger(Temperature(7, 0x12F)) == 0x12F
    ensures NearestInteger(Temperature(-2, -25)) == -25
    ensures NearestInteger(Temperature(-8, -25)) == -26
  {
  }

  /** The corrected rounding agrees on them. */
  lemma NearestIntegerCorrectedExamples()
    ensures NearestIntegerCorrected(Temperature(8, 0x12F)) == 0x130
    ensures NearestIntegerCorrected(Temperature(7, 0x12F)) == 0x12F
    ensures NearestIntegerCorrected(Temperature(-2, -25)) == -25
    ensures NearestIntegerCorrected(Temperature(-8, -25)) == -26
  {
  }

  // ---------------------------------------------------------------------
  // Resolution

  datatype ResolutionMode = NineBit | TenBit | ElevenBit | TwelveBit

  /** The two-bit code of a mode in the configuration register. */
  function ModeCode(mode: ResolutionMode): (code: nat)
    ensures code < 4
  {
    match mode
    case NineBit => 0
    case TenBit => 1
    case ElevenBit => 2
    case TwelveBit => 3
  }

  /** The configuration byte: the mode code in bits 5 and 6, the low five
      bits set to 0b01111. */
  function ConfigurationByte(mode: ResolutionMode): (b: u8)
    ensures b % 32 == 0x0F && b / 32 == ModeCode(mode)
  {
    ModeCode(mode) * 32 + 0x0F
  }

  /** The mode a configuration byte selects. */
  function ModeOfConfiguration(b: u8): ResolutionMode
  {
    match b / 32 % 4
    case 0 => NineBit
    case 1 => TenBit
    case 2 => ElevenBit
    case _ => TwelveBit
  }

  lemma ConfigurationRoundTrip(mode: ResolutionMode)
    ensures ModeOfConfiguration(ConfigurationByte(mode)) == mode
  {
  }

  /** The maximum conversion time of a mode, in microseconds. */
  function ConversionTime(mode: ResolutionMode): nat
  {
    match mode
    case NineBit => 93_750
    case TenBit => 187_500
    case ElevenBit => 375_000
    case TwelveBit => 750_000
  }

  /** Each extra bit of resolution doubles the conversion time. */
  lemma ConversionTimeDoubles(mode: ResolutionMode)
    ensures ConversionTime(mode) == 93_750 * Pow2(ModeCode(mode))
  {
    assert Pow2(1) == 2 && Pow2(2) == 4 && Pow2(3) == 8;
  }

  // ---------------------------------------------------------------------
  // Little-endian numbers

  /** Bytes read as a little-endian number. */
  function LittleEndian(bytes: seq<u8>): nat
  {
    if |bytes| == 0 then 0 else bytes[0] + 0x100 * LittleEndian(bytes[1..])
  }

  /** The `n` little-endian bytes of `x`. */
  function LeBytes(x: nat, n: nat): (bytes: seq<u8>)
    ensures |bytes| == n
  {
    if n == 0 then [] else [x % 0x100] + LeBytes(x / 0x100, n - 1)
  }

  /** 256 to the power `n`: the numbers `n` bytes can hold. */
  function Scale(n: nat): (r: nat)
    ensures r >= 1
  {
    if n == 0 then 1 else 0x100 * Scale(n - 1)
  }

  lemma {:induction false} ScaleMonotone(k: nat, n: nat)
    requires k <= n
    ensures Scale(k) <= Scale(n)
  {
    if k < n {
      ScaleMonotone(k, n - 1);
    }
  }

  /** Eight bytes fill a u64 exactly. */
  lemma ScaleOfEight()
    ensures Scale(6) == 0x1_0000_0000_0000 && Scale(7) == 0x100_0000_0000_0000 && Scale(8) == TwoTo64
  {
    assert Scale(1) == 0x100;
    assert Scale(2) == 0x1_0000;
    assert Scale(3) == 0x100_0000;
    assert Scale(4) == 0x1_0000_0000;
    assert Scale(5) == 0x100_0000_0000;
  }

  /** A shift by eight bits per byte is a multiplication by the scale. */
  lemma {:induction false} Pow2OfBytes(n: nat)
    ensures Pow2(8 * n) == Scale(n)
  {
    if n > 0 {
      Pow2OfBytes(n - 1);
      Pow2Add(8, 8 * (n - 1));
      assert Pow2(8) == 0x100;
    }
  }

  lemma {:induction false} LittleEndianBound(bytes: seq<u8>)
    ensures LittleEndian(bytes) < Scale(|bytes|)
  {
    if |bytes| > 0 {
      LittleEndianBound(bytes[1..]);
    }
  }

  /** Up to eight bytes fit a u64. */
  lemma LittleEndianFits(bytes: seq<u8>)
    requires |bytes| <= 8
    ensures LittleEndian(bytes) < TwoTo64
  {
    LittleEndianBound(bytes);
    ScaleMonotone(|bytes|, 8);
    ScaleOfEight();
  }

  lemma {:induction false} LittleEndianRoundTrip(bytes: seq<u8>)
    ensures LeBytes(LittleEndian(bytes), |bytes|) == bytes
  {
    if |bytes| > 0 {
      var x, rest := LittleEndian(bytes), LittleEndian(bytes[1..]);
      assert x == bytes[0] + 0x100 * rest;
      assert x % 0x100 == bytes[0] && x / 0x100 == rest;
      LittleEndianRoundTrip(bytes[1..]);
      assert LeBytes(x, |bytes|) == [bytes[0]] + LeBytes(rest, |bytes| - 1);
      assert bytes == [bytes[0]] + bytes[1..];
    }
  }

  lemma {:induction false} LeBytesRoundTrip(x: nat, n: nat)
    requires x < Scale(n)
    ensures LittleEndian(LeBytes(x, n)) == x
  {
    if n > 0 {
      LeBytesRoundTrip(x / 0x100, n - 1);
    }
  }

  /** Appending a more significant byte, as the source's accumulation loop
      does. */
  lemma {:induction false} LittleEndianSnoc(bytes: seq<u8>, b: u8)
    ensures LittleEndian(bytes + [b]) == LittleEndian(bytes) + b * Scale(|bytes|)
  {
    if |bytes| > 0 {
      assert (bytes + [b])[1..] == bytes[1..] + [b];
      LittleEndianSnoc(bytes[1..], b);
    }
  }

  /** The low byte of a little-endian number is its first byte. */
  lemma LittleEndianLowByte(bytes: seq<u8>)
    requires |bytes| > 0
    ensures LittleEndian(bytes) % 0x100 == bytes[0]
  {
  }

  // ---------------------------------------------------------------------
  // ROM code

  /** A device's 64-bit ROM code: family code, 48-bit serial number (least
      significant byte first), CRC. */
  type DeviceId = s: seq<u8> | |s| == 8 witness [0, 0, 0, 0, 0, 0, 0, 0]

  function FamilyCode(id: DeviceId): u8
  {
    id[0]
  }

  function Crc(id: DeviceId): u8
  {
    id[7]
  }

  function SerialOf(id: DeviceId): (serial: nat)
  {
    LittleEndian(id[1..7])
  }

  /** serial: bytes 1 to 6 copied to the low end of a zeroed eight-byte
      buffer, read as a little-endian u64. */
  method Serial(id: DeviceId) returns (serial: u64)
    ensures serial == SerialOf(id) && serial < 0x1_0000_0000_0000
  {
    var copy := new u8[8](_ => 0);
    for i := 1 to 7
      invariant copy[..] == id[1..i] + seq(9 - i, _ => 0)
    {
      copy[i - 1] := id[i];
      assert id[1..i + 1] == id[1..i] + [id[i]];
    }
    assert copy[..] == id[1..7] + [0] + [0];
    LittleEndianSnoc(id[1..7], 0);
    LittleEndianSnoc(id[1..7] + [0], 0);
    LittleEndianBound(id[1..7]);
    ScaleOfEight();
    serial := LittleEndian(copy[..]);
  }

  /** The accessors take the ROM code apart without loss. */
  lemma DeviceIdFields(id: DeviceId)
    ensures id == [FamilyCode(id)] + LeBytes(SerialOf(id), 6) + [Crc(id)]
  {
    LittleEndianRoundTrip(id[1..7]);
  }

  /** calculated_crc: compute_crc of the ROM code read little-endian with
      its CRC byte cleared. */
  function CalculatedCrc(id: DeviceId): u8
  {
    var copy := id[7 := 0];
    LittleEndianFits(copy);
    ComputeCrc(LittleEndian(copy))
  }

  /** As written, calculated_crc depends on the family code alone. */
  lemma CalculatedCrcOfFamilyCode(id: DeviceId)
    ensures CalculatedCrc(id) == CrcOfLowByte(FamilyCode(id))
  {
    var copy := id[7 := 0];
    LittleEndianFits(copy);
    ComputeCrcOfLowByte(LittleEndian(copy));
    LittleEndianLowByte(copy);
  }

  /** So for the DS18B20 family code 0x28 it is 1, whatever the serial. */
  lemma CalculatedCrcOfDs18b20(id: DeviceId)
    requires FamilyCode(id) == 0x28
    ensures CalculatedCrc(id) == 1
  {
    CalculatedCrcOfFamilyCode(id);
    CrcOfDs18b20FamilyCode();
  }

  lemma CrcOfDs18b20FamilyCode()
    ensures CrcOfLowByte(0x28) == 1
  {
    assert 0x28 * 0x28 % 0x100 == 0x40;
    assert 0x40 * 0x28 % 0x100 == 0;
  }

  // ---------------------------------------------------------------------
  // The scratchpad check as written

  const TwoTo64 := 0x1_0000_0000_0000_0000

  function WrappingMul(a: u64, b: u64): u64
  {
    a * b % TwoTo64
  }

  /** compute_crc: x^8 + x^5 + x^4 + 1 evaluated with wrapping u64
      arithmetic, truncated to its low byte. */
  function ComputeCrc(x: u64): u8
  {
    var x4 := WrappingMul(WrappingMul(WrappingMul(x, x), x), x);
    var x5 := WrappingMul(x4, x);
    var x8 := WrappingMul(WrappingMul(WrappingMul(x5, x), x), x);
    (x8 + x5 + x4 + 1) % TwoTo64 % 0x100
  }

  /** The low byte of a wrapped product is the low byte of the product of
      the low bytes. */
  lemma WrappingMulLowByte(a: u64, b: u64)
    ensures WrappingMul(a, b) % 0x100 == (a % 0x100) * (b % 0x100) % 0x100
  {
    var qa, ra := a / 0x100, a % 0x100;
    var qb, rb := b / 0x100, b % 0x100;
    assert a * b == 0x100 * (qa * b + ra * qb) + ra * rb;
    ModMultiple(ra * rb, qa * b + ra * qb);
    LowByteOfWrapped(a * b);
  }

  /** Wrapping at 2^64 keeps the low byte. */
  lemma LowByteOfWrapped(p: nat)
    ensures p % TwoTo64 % 0x100 == p % 0x100
  {
    var k := p / TwoTo64;
    assert p == TwoTo64 * k + p % TwoTo64;
    assert TwoTo64 * k == 0x100 * (0x1_0000_0000_0000_00 * k);
    ModMultiple(p % TwoTo64, 0x1_0000_0000_0000_00 * k);
  }

  lemma ModMultiple(c: int, k: int)
    ensures (0x100 * k + c) % 0x100 == c % 0x100
  {
  }

  /** x^8 + x^5 + x^4 + 1 modulo 256, for a byte. */
  function CrcOfLowByte(y: nat): nat
  {
    var y2 := y * y % 0x100;
    var y3 := y2 * y % 0x100;
    var y4 := y3 * y % 0x100;
    var y5 := y4 * y % 0x100;
    var y6 := y5 * y % 0x100;
    var y7 := y6 * y % 0x100;
    var y8 := y7 * y % 0x100;
    (y8 + y5 + y4 + 1) % 0x100
  }

  lemma MulStep(a: u64, x: u64, ya: nat, y: nat)
    requires a % 0x100 == ya && x % 0x100 == y
    ensures WrappingMul(a, x) % 0x100 == ya * y % 0x100
  {
    WrappingMulLowByte(a, x);
  }

  /** compute_crc depends on nothing but the low byte of its argument. */
  lemma ComputeCrcOfLowByte(x: u64)
    ensures ComputeCrc(x) == CrcOfLowByte(x % 0x100)
  {
    var y := x % 0x100;
    var x2 := WrappingMul(x, x);
    MulStep(x, x, y, y);
    var x3 := WrappingMul(x2, x);
    MulStep(x2, x, y * y % 0x100, y);
    var x4 := WrappingMul(x3, x);
    MulStep(x3, x, (y * y % 0x100) * y % 0x100, y);
    var x5 := WrappingMul(x4, x);
    MulStep(x4, x, x4 % 0x100, y);
    var x6 := WrappingMul(x5, x);
    MulStep(x5, x, x5 % 0x100, y);
    var x7 := WrappingMul(x6, x);
    MulStep(x6, x, x6 % 0x100, y);
    var x8 := WrappingMul(x7, x);
    MulStep(x7, x, x7 % 0x100, y);
    SumLowByte(x8, x5, x4);
  }

  lemma SumLowByte(a: u64, b: u64, c: u64)
    ensures (a + b + c + 1) % TwoTo64 % 0x100 == (a % 0x100 + b % 0x100 + c % 0x100 + 1) % 0x100
  {
    LowByteOfWrapped(a + b + c + 1);
    var q := a / 0x100 + b / 0x100 + c / 0x100;
    assert a + b + c + 1 == 0x100 * q + (a % 0x100 + b % 0x100 + c % 0x100 + 1);
    ModMultiple(a % 0x100 + b % 0x100 + c % 0x100 + 1, q);
  }

  /** The scratchpad check of read_temperature as written: compute_crc of
      bytes 0 to 7, read as a little-endian u64, against byte 8. */
  predicate CrcMatches(data: seq<u8>)
    requires |data| == 9
  {
    LittleEndianFits(data[..8]);
    ComputeCrc(LittleEndian(data[..8])) == data[8]
  }

  /** As written, the check compares byte 8 with a polynomial in byte 0. */
  lemma CrcMatchesLowByte(data: seq<u8>)
    requires |data| == 9
    ensures CrcMatches(data) <==> CrcOfLowByte(data[0]) == data[8]
  {
    LittleEndianFits(data[..8]);
    ComputeCrcOfLowByte(LittleEndian(data[..8]));
    LittleEndianLowByte(data[..8]);
  }

  /** So any of bytes 1 to 7 can be corrupted without the check noticing. */
  lemma CrcMatchesIgnoresMiddleBytes(data: seq<u8>, k: nat, v: u8)
    requires |data| == 9 && 1 <= k < 8
    ensures CrcMatches(data[k := v]) == CrcMatches(data)
  {
    CrcMatchesLowByte(data);
    CrcMatchesLowByte(data[k := v]);
  }

  /** The scratchpad of a DS18B20 at power-on (85 degrees, configuration
      0x7F), with its CRC byte 0x1C. */
  const PowerOnScratchpad: seq<u8> := [0x50, 0x05, 0x4B, 0x46, 0x7F, 0xFF, 0x0C, 0x10, 0x1C]

  /** As written, the check rejects the power-on scratchpad, whose CRC byte
      is the Dallas CRC-8 of the other eight. */
  lemma PowerOnScratchpadRejected()
    ensures ScratchpadIntact(PowerOnScratchpad)
    ensures !CrcMatches(PowerOnScratchpad)
  {
    var d := PowerOnScratchpad;
    PowerOnScratchpadIntact();
    CrcMatchesLowByte(d);
    assert d[0] == 0x50 && d[8] == 0x1C;
    CrcOfPowerOnLowByte();
  }

  lemma CrcOfPowerOnLowByte()
    ensures CrcOfLowByte(0x50) == 1
  {
    assert 0x50 * 0x50 == 25 * 0x100;
  }

  // ---------------------------------------------------------------------
  // The scratchpad check corrected: the Dallas/Maxim CRC-8

  /** The corrected check: the Dallas CRC-8 of bytes 0 to 7 is byte 8. */
  predicate ScratchpadIntact(data: seq<u8>)
    requires |data| == 9
  {
    Crc8(data[..8]) as int == data[8]
  }

  /** The power-on scratchpad carries its Dallas CRC-8. */
  lemma PowerOnScratchpadIntact()
    ensures ScratchpadIntact(PowerOnScratchpad)
  {
    var d := PowerOnScratchpad;
    PowerOnCrcBytes();
    Crc8Step([], 0x50, 0x50, 0, 0xDB);
    assert d[..1] == [0x50];
    Crc8Step(d[..1], 0x05, 0x05, 0xDB, 0x48);
    assert d[..2] == d[..1] + [0x05];
    Crc8Step(d[..2], 0x4B, 0x4B, 0x48, 0xE2);
    assert d[..3] == d[..2] + [0x4B];
    Crc8Step(d[..3], 0x46, 0x46, 0xE2, 0xCE);
    assert d[..4] == d[..3] + [0x46];
    Crc8Step(d[..4], 0x7F, 0x7F, 0xCE, 0x6C);
    assert d[..5] == d[..4] + [0x7F];
    Crc8Step(d[..5], 0xFF, 0xFF, 0x6C, 0xF3);
    assert d[..6] == d[..5] + [0xFF];
    Crc8Step(d[..6], 0x0C, 0x0C, 0xF3, 0x35);
    assert d[..7] == d[..6] + [0x0C];
    Crc8Step(d[..7], 0x10, 0x10, 0x35, 0x1C);
    assert d[..8] == d[..7] + [0x10];
    assert d[8] == 0x1C;
  }

  /** The corrected check accepts the power-on scratchpad and rejects it
      with any one byte corrupted. */
  lemma ScratchpadIntactExamples(k: nat, v: u8)
    requires k < 9 && v != PowerOnScratchpad[k]
    ensures ScratchpadIntact(PowerOnScratchpad)
    ensures !ScratchpadIntact(PowerOnScratchpad[k := v])
  {
    var d := PowerOnScratchpad;
    var c := d[k := v];
    PowerOnScratchpadIntact();
    if k < 8 {
      assert c[..8] == d[..8][k := v];
      Crc8DetectsByteChange(d[..8], k, v);
    } else {
      assert c[..8] == d[..8];
    }
  }

  // ---------------------------------------------------------------------
  // read_temperature

  const SkipRom: u8 := 0xCC
  const ConvertTemperature: u8 := 0x44
  const ReadScratchpad: u8 := 0xBE

  /** `n` bytes read one after the other. */
  function ReadBytesSpec(line: Line, n: nat): (r: Result<(seq<u8>, Line), Ds18b20Error>)
    ensures r.Ok? <==> |line.samples| >= 8 * n
    ensures r.Ok? ==> |r.value.0| == n && r.value.1.samples == line.samples[8 * n..]
    ensures r.Err? ==> r.error == WrappedInput
  {
    if n == 0 then Ok(([], line))
    else
      var before := ReadBytesSpec(line, n - 1);
      if before.Err? then before
      else
        var next := ReadByteSpec(before.value.1);
        if next.Err? then Err(next.error)
        else Ok((before.value.0 + [next.value.0], next.value.1))
  }

  /** Once a read fails, reading more bytes fails too. */
  lemma {:induction false} ReadBytesStaysFailed(line: Line, k: nat, n: nat)
    requires k <= n && ReadBytesSpec(line, k).Err?
    ensures ReadBytesSpec(line, n).Err?
  {
    if k < n {
      ReadBytesStaysFailed(line, k, n - 1);
    }
  }

  /** The read loop of read_temperature, filling `data` one byte at a time
      and giving up at the first byte that cannot be read. */
  method ReadBytes(line: Line, data: array<u8>) returns (r: Result<Line, Ds18b20Error>)
    modifies data
    ensures r.Ok? ==> ReadBytesSpec(line, data.Length) == Ok((data[..], r.value))
    ensures r.Err? ==> ReadBytesSpec(line, data.Length) == Err(r.error)
  {
    var l := line;
    for i := 0 to data.Length
      invariant ReadBytesSpec(line, i) == Ok((data[..i], l))
    {
      var next := ReadByte(l);
      if next.Err? {
        ReadBytesStaysFailed(line, i + 1, data.Length);
        return Err(next.error);
      }
      data[i] := next.value.0;
      l := next.value.1;
      assert data[..i + 1] == data[..i] + [next.value.0];
    }
    assert data[..data.Length] == data[..];
    r := Ok(l);
  }

  /** Both resets of read_temperature find a device: each has a low
      presence sample. */
  predicate Answered(samples: seq<bool>)
  {
    |samples| >= 4 && !(samples[0] && samples[1]) && !(samples[2] && samples[3])
  }

  /** One of the resets of read_temperature samples the line high twice:
      the first, or the second after the first found a device. */
  predicate Unanswered(samples: seq<bool>)
  {
    || (|samples| >= 2 && samples[0] && samples[1])
    || (|samples| >= 4 && !(samples[0] && samples[1]) && samples[2] && samples[3])
  }

  /** The bus up to the scratchpad read: reset, Skip ROM, Convert T, the
      12-bit conversion time, reset, Skip ROM, Read Scratchpad. Writes
      consume no samples; each reset consumes two. */
  function CommandsSpec(line: Line): (r: Result<Line, Ds18b20Error>)
    ensures r.Ok? <==> Answered(line.samples)
    ensures r.Ok? ==> r.value.samples == line.samples[4..]
    ensures r.Err? ==> (r.error == NoSensorsFound <==> Unanswered(line.samples))
    ensures r.Err? && r.error != NoSensorsFound ==> r.error == WrappedInput
  {
    var first := Reset(line);
    if first.Err? then first
    else
      var convert := first.value.(trace := first.value.trace + WriteByteEvents(SkipRom)
        + WriteByteEvents(ConvertTemperature) + [Wait(ConversionTime(TwelveBit))]);
      var second := Reset(convert);
      if second.Err? then second
      else Ok(second.value.(trace := second.value.trace + WriteByteEvents(SkipRom)
        + WriteByteEvents(ReadScratchpad)))
  }

  /** read_temperature: the commands, the nine scratchpad bytes, the check,
      and the decoded reading with the pin left driven high. NoSensorsFound
      when a reset finds no device, WrappedInput when the line runs out of
      samples, BadData when the scratchpad fails its check. */
  function ReadTemperatureSpec(line: Line): (r: Result<(Temperature, Line), Ds18b20Error>)
    ensures r.Err? && r.error == NoSensorsFound <==> Unanswered(line.samples)
    ensures r.Err? && r.error == WrappedInput <==>
      !Unanswered(line.samples) && !(Answered(line.samples) && |line.samples| >= 4 + 8 * 9)
    ensures r.Err? ==> r.error == NoSensorsFound || r.error == WrappedInput || r.error == BadData
    ensures r.Err? && r.error == BadData <==>
      CommandsSpec(line).Ok? && ReadBytesSpec(CommandsSpec(line).value, 9).Ok?
      && !CrcMatches(ReadBytesSpec(CommandsSpec(line).value, 9).value.0)
    ensures r.Ok? <==>
      CommandsSpec(line).Ok? && ReadBytesSpec(CommandsSpec(line).value, 9).Ok?
      && CrcMatches(ReadBytesSpec(CommandsSpec(line).value, 9).value.0)
    ensures r.Ok? ==> (
      var data := ReadBytesSpec(CommandsSpec(line).value, 9).value.0;
      r.value.0 == FromBytes(data[0], data[1]) && r.value.1.samples == line.samples[4 + 8 * 9..])
  {
    var commands := CommandsSpec(line);
    if commands.Err? then Err(commands.error) else ScratchpadSpec(commands.value)
  }

  /** The rest of read_temperature once the commands are sent: the nine
      bytes, the check and the decoded reading. */
  function ScratchpadSpec(line: Line): (r: Result<(Temperature, Line), Ds18b20Error>)
    ensures r.Err? ==> r.error == WrappedInput || r.error == BadData
  {
    var scratchpad := ReadBytesSpec(line, 9);
    if scratchpad.Err? then Err(scratchpad.error)
    else
      var data := scratchpad.value.0;
      var l := scratchpad.value.1;
      if !CrcMatches(data) then Err(BadData)
      else Ok((FromBytes(data[0], data[1]), l.(trace := l.trace + [Drive(true)])))
  }

  /** The samples a device sends for `bytes`: each byte's bits, least
      significant first. */
  function BytesBits(bytes: seq<u8>): (bits: seq<bool>)
    ensures |bits| == 8 * |bytes|
  {
    if |bytes| == 0 then [] else LsbBits(bytes[0], 8) + BytesBits(bytes[1..])
  }

  /** The bits of the bytes from `k` on are those of byte `k`, then the rest. */
  lemma BytesBitsFrom(bytes: seq<u8>, k: nat)
    requires k < |bytes|
    ensures BytesBits(bytes[k..]) == LsbBits(bytes[k], 8) + BytesBits(bytes[k + 1..])
    ensures bytes[..k + 1] == bytes[..k] + [bytes[k]]
  {
    assert bytes[k..][1..] == bytes[k + 1..];
  }

  /** Reading `n` bytes of what a device sends for `bytes` returns the first
      `n` of them and leaves the bits of the others. */
  lemma {:induction false} ReadBytesOfWritten(line: Line, bytes: seq<u8>, rest: seq<bool>, n: nat)
    requires line.samples == BytesBits(bytes) + rest && n <= |bytes|
    ensures ReadBytesSpec(line, n).Ok?
    ensures ReadBytesSpec(line, n).value.0 == bytes[..n]
    ensures ReadBytesSpec(line, n).value.1.samples == BytesBits(bytes[n..]) + rest
  {
    if n == 0 {
      assert bytes[0..] == bytes;
    } else {
      ReadBytesOfWritten(line, bytes, rest, n - 1);
      var before := ReadBytesSpec(line, n - 1).value;
      BytesBitsNext(bytes, rest, n - 1);
      ReadByteAfter(before, ReadBytesSpec(line, n), bytes[n - 1], BytesBits(bytes[n..]) + rest);
    }
  }

  /** What is left after `k` bytes starts with the bits of byte `k`. */
  lemma BytesBitsNext(bytes: seq<u8>, rest: seq<bool>, k: nat)
    requires k < |bytes|
    ensures BytesBits(bytes[k..]) + rest == LsbBits(bytes[k], 8) + (BytesBits(bytes[k + 1..]) + rest)
    ensures bytes[..k + 1] == bytes[..k] + [bytes[k]]
  {
    BytesBitsFrom(bytes, k);
  }

  /** A byte read after `before` from a line that holds its bits. */
  lemma ReadByteAfter(before: (seq<u8>, Line), after: Result<(seq<u8>, Line), Ds18b20Error>,
                      byte: u8, tail: seq<bool>)
    requires before.1.samples == LsbBits(byte, 8) + tail
    requires after == (var next := ReadByteSpec(before.1);
                       if next.Err? then Err(next.error) else Ok((before.0 + [next.value.0], next.value.1)))
    ensures after.Ok? && after.value.0 == before.0 + [byte] && after.value.1.samples == tail
  {
    ReadByteOfWritten(byte, tail, before.1.trace);
    assert before.1 == Line(LsbBits(byte, 8) + tail, before.1.trace);
  }

  /** A sensor that answers both resets and sends the nine bytes of a
      scratchpad is read as the temperature in its first two bytes when the
      CRC matches, and as BadData when it does not. */
  lemma ReadTemperatureOfScratchpad(presence: seq<bool>, scratchpad: seq<u8>, rest: seq<bool>, trace: seq<Event>)
    requires Answered(presence) && |presence| == 4 && |scratchpad| == 9
    ensures var r := ReadTemperatureSpec(Line(presence + BytesBits(scratchpad) + rest, trace));
      if CrcMatches(scratchpad) then r.Ok? && r.value.0 == FromBytes(scratchpad[0], scratchpad[1])
        && r.value.1.samples == rest
      else r == Err(BadData)
  {
    var line := Line(presence + BytesBits(scratchpad) + rest, trace);
    var body := BytesBits(scratchpad) + rest;
    assert line.samples == presence + body;
    CommandsOfAnswered(line, presence, body);
    ScratchpadOfWritten(CommandsSpec(line).value, scratchpad, rest);
  }

  /** The scratchpad half of ReadTemperatureOfScratchpad. */
  lemma ScratchpadOfWritten(line: Line, scratchpad: seq<u8>, rest: seq<bool>)
    requires |scratchpad| == 9 && line.samples == BytesBits(scratchpad) + rest
    ensures var r := ScratchpadSpec(line);
      if CrcMatches(scratchpad) then r.Ok? && r.value.0 == FromBytes(scratchpad[0], scratchpad[1])
        && r.value.1.samples == rest
      else r == Err(BadData)
  {
    ReadBytesOfWritten(line, scratchpad, rest, 9);
    assert scratchpad[..9] == scratchpad;
    assert scratchpad[9..] == [];
  }

  /** A line whose first four samples answer both resets reaches the
      scratchpad read with the samples after them. */
  lemma CommandsOfAnswered(line: Line, presence: seq<bool>, body: seq<bool>)
    requires Answered(presence) && |presence| == 4 && line.samples == presence + body
    ensures CommandsSpec(line).Ok? && CommandsSpec(line).value.samples == body
  {
    assert line.samples[4..] == body;
  }

  /** The commands of read_temperature, sent in order, stopping at the
      first reset that finds no sensor. */
  method SendCommands(line: Line) returns (r: Result<Line, Ds18b20Error>)
    ensures r == CommandsSpec(line)
  {
    var reset := Reset(line);
    if reset.Err? {
      return Err(reset.error);
    }
    var l := WriteByte(SkipRom, reset.value);
    l := WriteByte(ConvertTemperature, l);
    l := l.(trace := l.trace + [Wait(ConversionTime(TwelveBit))]);
    reset := Reset(l);
    if reset.Err? {
      return Err(reset.error);
    }
    l := WriteByte(SkipRom, reset.value);
    l := WriteByte(ReadScratchpad, l);
    r := Ok(l);
  }

  /** The accumulation loop of read_temperature: bytes 0 to 7 shifted into a
      u64, least significant first. */
  method ScratchpadValue(data: array<u8>) returns (x: u64)
    requires data.Length >= 8
    ensures x == LittleEndian(data[..8])
  {
    x := 0;
    var shift := 0;
    for i := 0 to 8
      invariant shift == 8 * i
      invariant x == LittleEndian(data[..i])
    {
      assert data[..i + 1] == data[..i] + [data[i]];
      LittleEndianSnoc(data[..i], data[i]);
      LittleEndianFits(data[..i + 1]);
      Pow2OfBytes(i);
      x := x + data[i] * Pow2(shift);
      shift := shift + 8;
    }
  }

  method ReadTemperature(line: Line) returns (r: Result<(Temperature, Line), Ds18b20Error>)
    ensures r == ReadTemperatureSpec(line)
  {
    var commands := SendCommands(line);
    if commands.Err? {
      return Err(commands.error);
    }
    var l := commands.value;
    var data := new u8[9];
    var read := ReadBytes(l, data);
    if read.Err? {
      return Err(read.error);
    }
    l := read.value;
    var x := ScratchpadValue(data);
    assert data[..8] == data[..][..8];
    var crc := ComputeCrc(x);
    if crc != data[8] {
      return Err(BadData);
    }
    var temperature := FromBytes(data[0], data[1]);
    r := Ok((temperature, l.(trace := l.trace + [Drive(true)])));
  }
}
