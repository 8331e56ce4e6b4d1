/** The MCP3004/MCP3008 analog-to-digital converters over SPI: the control
    bits of a request, the per-device argument check, the three-byte request
    frame and the 10-bit result in the reply. Bitwise operations on bytes are
    written as the equivalent arithmetic: `x & 0b11` is `x % 4`, bit 2 of `x`
    is `x / 4 % 2`, and `x << 4` on a u8 keeps the low byte of `x * 16`. */
module Mcp300x {
  import opened Common

  /** The number of addressable channels on an MCP3004 and an MCP3008. */
  const NumChannelsMcp3004: u8 := 4
  const NumChannelsMcp3008: u8 := 8

  /** Errors of a read. The SPI driver's own error is kept as a code. */
  datatype Mcp300xError = Wrapped(ioError: nat) | InvalidArgument | BadData

  /** Which two channels a differential read compares. */
  datatype DifferentialMode =
    | ZeroMinusOne | OneMinusZero | TwoMinusThree | ThreeMinusTwo
    | FourMinusFive | FiveMinusFour | SixMinusSeven | SevenMinusSix

  /** The last differential mode an MCP3004 has channels for. */
  const MaxDifferentialModeMcp3004: DifferentialMode := ThreeMinusTwo

  /** A single-ended read of one channel, or a differential read. */
  datatype Request = SingleEnded(channel: u8) | Differential(mode: DifferentialMode)

  /** Three bytes: what is sent and what comes back in one transfer. */
  type Frame = s: seq<u8> | |s| == 3 witness [0, 0, 0]

  /** An SPI transfer: the reply to a frame, or the driver's error code. */
  type Spi = Frame -> Result<Frame, nat>

  /** `mode as u8`: the position of the mode in its declaration. */
  function Ordinal(mode: DifferentialMode): (n: u8)
    ensures n < 8
  {
    match mode
    case ZeroMinusOne => 0
    case OneMinusZero => 1
    case TwoMinusThree => 2
    case ThreeMinusTwo => 3
    case FourMinusFive => 4
    case FiveMinusFour => 5
    case SixMinusSeven => 6
    case SevenMinusSix => 7
  }

  /** The mode at a position: the inverse of Ordinal. */
  function ModeOf(n: nat): (mode: DifferentialMode)
    requires n < 8
    ensures Ordinal(mode) == n
  {
    if n == 0 then ZeroMinusOne
    else if n == 1 then OneMinusZero
    else if n == 2 then TwoMinusThree
    else if n == 3 then ThreeMinusTwo
    else if n == 4 then FourMinusFive
    else if n == 5 then FiveMinusFour
    else if n == 6 then SixMinusSeven
    else SevenMinusSix
  }

  /** `to_bits`: 0b0000abcd, with a the single-ended flag and bcd the channel
      select bits. A single-ended channel is or-ed with 0b1000. */
  function ToBits(request: Request): (bits: u8)
  {
    match request
    case SingleEnded(channel) => if channel / 8 % 2 == 1 then channel else channel + 8
    case Differential(mode) => Ordinal(mode)
  }

  /** The single-ended encoding is `0b1000 | channel`: bit 3 is set and every
      other bit is the channel's. */
  lemma ToBitsSingleEndedIsOr(channel: u8)
    ensures ToBits(SingleEnded(channel)) / 8 % 2 == 1
    ensures ToBits(SingleEnded(channel)) % 8 == channel % 8
    ensures ToBits(SingleEnded(channel)) / 16 == channel / 16
  {
  }

  /** The request a control nibble stands for. */
  function RequestOfBits(bits: u8): (r: Option<Request>)
  {
    if bits >= 16 then None
    else if bits >= 8 then Some(SingleEnded(bits - 8))
    else Some(Differential(ModeOf(bits)))
  }

  /** `read_mcp3004` refuses channels from 4 up and the differential modes
      after ThreeMinusTwo. */
  predicate IsArgInvalid3004(request: Request)
  {
    match request
    case SingleEnded(channel) => channel >= NumChannelsMcp3004
    case Differential(mode) => Ordinal(mode) > Ordinal(MaxDifferentialModeMcp3004)
  }

  /** `read_mcp3008` refuses channels from 8 up and accepts every
      differential mode. */
  predicate IsArgInvalid3008(request: Request)
  {
    match request
    case SingleEnded(channel) => channel >= NumChannelsMcp3008
    case _ => false
  }

  /** Every request an MCP3008 accepts has a control nibble that decodes
      back to it. */
  lemma ToBitsRoundTrip(request: Request)
    requires !IsArgInvalid3008(request)
    ensures ToBits(request) < 16
    ensures RequestOfBits(ToBits(request)) == Some(request)
  {
    if request.Differential? {
      var m := ModeOf(Ordinal(request.mode));
      assert Ordinal(m) == Ordinal(request.mode);
      OrdinalInjective(m, request.mode);
    }
  }

  /** Every control nibble is the encoding of the request it decodes to,
      and that request is one an MCP3008 accepts. */
  lemma RequestOfBitsRoundTrip(bits: u8)
    requires bits < 16
    ensures RequestOfBits(bits).Some?
    ensures !IsArgInvalid3008(RequestOfBits(bits).value)
    ensures ToBits(RequestOfBits(bits).value) == bits
  {
  }

  lemma OrdinalInjective(m: DifferentialMode, m': DifferentialMode)
    requires Ordinal(m) == Ordinal(m')
    ensures m == m'
  {
  }

  /** Two requests an MCP3008 accepts are sent with the same control bits
      only when they are the same request. */
  lemma {:induction false} ToBitsInjective(r: Request, r': Request)
    requires !IsArgInvalid3008(r) && !IsArgInvalid3008(r')
    ensures ToBits(r) == ToBits(r') <==> r == r'
  {
    ToBitsRoundTrip(r);
    ToBitsRoundTrip(r');
  }

  /** The MCP3004 accepts exactly the MCP3008 requests whose channel select
      bits address one of the channels 0 to 3, that is whose bit 2 is clear. */
  lemma Mcp3004Accepts(request: Request)
    ensures !IsArgInvalid3004(request) <==> !IsArgInvalid3008(request) && ToBits(request) % 8 < 4
  {
  }

  /** The expected values of `to_bits` for all sixteen valid requests. */
  lemma ToBitsExamples()
    ensures ToBits(SingleEnded(0)) == 0x8 && ToBits(SingleEnded(1)) == 0x9
    ensures ToBits(SingleEnded(2)) == 0xa && ToBits(SingleEnded(3)) == 0xb
    ensures ToBits(SingleEnded(4)) == 0xc && ToBits(SingleEnded(5)) == 0xd
    ensures ToBits(SingleEnded(6)) == 0xe && ToBits(SingleEnded(7)) == 0xf
    ensures ToBits(Differential(ZeroMinusOne)) == 0x0 && ToBits(Differential(OneMinusZero)) == 0x1
    ensures ToBits(Differential(TwoMinusThree)) == 0x2 && ToBits(Differential(ThreeMinusTwo)) == 0x3
    ensures ToBits(Differential(FourMinusFive)) == 0x4 && ToBits(Differential(FiveMinusFour)) == 0x5
    ensures ToBits(Differential(SixMinusSeven)) == 0x6 && ToBits(Differential(SevenMinusSix)) == 0x7
  {
  }

  /** The request frame: the start bit alone in the first byte, the control
      bits shifted into the high nibble of the second (dropping what does not
      fit in a byte), and a zero byte during which the rest of the result
      is clocked out. */
  function TxFrame(request: Request): (tx: Frame)
  {
    [0x01, ToBits(request) * 16 % 0x100, 0x00]
  }

  /** For a request an MCP3008 accepts, the control bits sit whole in the
      high nibble of the second byte, behind the start bit. */
  lemma TxFrameLayout(request: Request)
    requires !IsArgInvalid3008(request)
    ensures TxFrame(request)[0] == 1 && TxFrame(request)[2] == 0
    ensures TxFrame(request)[1] / 16 == ToBits(request) && TxFrame(request)[1] % 16 == 0
    ensures RequestOfBits(TxFrame(request)[1] / 16) == Some(request)
  {
    ToBitsRoundTrip(request);
  }

  /** The frame for a single-ended read of channel 1. */
  lemma TxFrameExample()
    ensures TxFrame(SingleEnded(1)) == [0x01, 0x90, 0x00]
  {
  }

  /** The reply check and decode of `read`: a set null bit (bit 2 of the
      second byte) makes the reading BadData; otherwise the result is the
      low two bits of the second byte followed by the third byte. */
  function DecodeReply(rx: Frame): (r: Result<u16, Mcp300xError>)
    ensures r.Ok? <==> rx[1] / 4 % 2 == 0
    ensures r.Ok? ==> r.value < 1024
    ensures r.Err? ==> r.error == BadData
  {
    if rx[1] / 4 % 2 != 0 then Err(BadData)
    else
      var high: int := rx[1] % 4;
      Ok(high * 0x100 + rx[2])
  }

  /** A reply that carries `value` with a clear null bit, and any bits above
      it in the second byte, as a sensor sends it. */
  function ReplyOf(value: nat, first: u8, high: nat): (rx: Frame)
    requires value < 1024 && high < 32
  {
    [first, high * 8 + value / 0x100, value % 0x100]
  }

  /** Decoding a reply returns the value it carries, whatever the first byte
      and the bits above the null bit are. */
  lemma DecodeReplyOf(value: nat, first: u8, high: nat)
    requires value < 1024 && high < 32
    ensures DecodeReply(ReplyOf(value, first, high)) == Ok(value)
  {
    var rx := ReplyOf(value, first, high);
    assert rx[1] % 8 == value / 0x100;
  }

  /** Conversely, a reply that decodes to `value` has it in its low ten bits,
      so it is ReplyOf(value) for its own first byte and upper bits. */
  lemma ReplyOfDecode(rx: Frame)
    requires DecodeReply(rx).Ok?
    ensures rx == ReplyOf(DecodeReply(rx).value, rx[0], rx[1] / 8)
  {
    var value := DecodeReply(rx).value;
    assert value / 0x100 == rx[1] % 4;
    assert value % 0x100 == rx[2];
    assert rx[1] == rx[1] / 8 * 8 + rx[1] % 8;
  }

  /** The result depends only on the low three bits of the second byte and
      on the third byte. */
  lemma DecodeReplyIgnores(rx: Frame, rx': Frame)
    requires rx[1] % 8 == rx'[1] % 8 && rx[2] == rx'[2]
    ensures DecodeReply(rx) == DecodeReply(rx')
  {
    assert rx[1] / 4 % 2 == rx[1] % 8 / 4;
    assert rx'[1] / 4 % 2 == rx'[1] % 8 / 4;
  }

  /** `read`: one transfer of the request frame, then the reply decoded. */
  function Read(request: Request, spi: Spi): (r: Result<u16, Mcp300xError>)
    ensures r.Ok? ==> r.value < 1024
    ensures r.Err? && r.error.Wrapped? <==> spi(TxFrame(request)).Err?
    ensures r.Err? ==> !r.error.InvalidArgument?
  {
    var reply := spi(TxFrame(request));
    if reply.Err? then Err(Wrapped(reply.error))
    else DecodeReply(reply.value)
  }

  /** `read_mcp3004`: the argument check, then `read`. */
  function ReadMcp3004(request: Request, spi: Spi): (r: Result<u16, Mcp300xError>)
    ensures r.Err? && r.error == InvalidArgument <==> IsArgInvalid3004(request)
    ensures !IsArgInvalid3004(request) ==> r == Read(request, spi)
    ensures r.Ok? ==> r.value < 1024
  {
    if IsArgInvalid3004(request) then Err(InvalidArgument) else Read(request, spi)
  }

  /** `read_mcp3008`: the argument check, then `read`. */
  function ReadMcp3008(request: Request, spi: Spi): (r: Result<u16, Mcp300xError>)
    ensures r.Err? && r.error == InvalidArgument <==> IsArgInvalid3008(request)
    ensures !IsArgInvalid3008(request) ==> r == Read(request, spi)
    ensures r.Ok? ==> r.value < 1024
  {
    if IsArgInvalid3008(request) then Err(InvalidArgument) else Read(request, spi)
  }

  /** An invalid request is refused before any transfer: the result is the
      same whatever the SPI bus would answer. */
  lemma InvalidRequestNeverTransfers(request: Request, spi: Spi, spi': Spi)
    requires IsArgInvalid3004(request)
    ensures ReadMcp3004(request, spi) == ReadMcp3004(request, spi') == Err(InvalidArgument)
    ensures IsArgInvalid3008(request) ==>
      ReadMcp3008(request, spi) == ReadMcp3008(request, spi') == Err(InvalidArgument)
  {
  }

  /** End to end: a valid request answered with a reply carrying `value`
      reads as `value`. */
  lemma ReadOfReply(request: Request, spi: Spi, value: nat, first: u8, high: nat)
    requires !IsArgInvalid3008(request) && value < 1024 && high < 32
    requires spi(TxFrame(request)) == Ok(ReplyOf(value, first, high))
    ensures ReadMcp3008(request, spi) == Ok(value)
    ensures !IsArgInvalid3004(request) ==> ReadMcp3004(request, spi) == Ok(value)
  {
    DecodeReplyOf(value, first, high);
  }
}
