/** The older MCP3008-only driver: the same request encoding and frame as
    the MCP300x driver, an error type without BadData, and a read that takes
    the reply's low ten bits without looking at the null bit. */
module Mcp3008 {
  import opened Common
  import Mcp300x

  /** The number of addressable channels. */
  const NumChannels: u8 := 8

  /** Errors of a read: the SPI driver's own error, kept as a code, or an
      argument out of range. */
  datatype Error = Wrapped(ioError: nat) | InvalidArgument

  /** A reading: the 10-bit conversion result. */
  datatype Mcp3008Response = Mcp3008Response(value: u16)

  /** The driver holds the SPI bus it transfers over. */
  datatype Driver = Driver(spi: Mcp300x.Spi)

  /** `new`: a driver over the given bus. */
  function New(spi: Mcp300x.Spi): (d: Driver)
    ensures d.spi == spi
  {
    Driver(spi)
  }

  /** The channel check of `read`: only a single-ended channel can be out
      of range. */
  predicate IsArgInvalid(request: Mcp300x.Request)
  {
    request.SingleEnded? && request.channel >= NumChannels
  }

  /** `read`: the channel check, one transfer of the request frame, and the
      low two bits of the second reply byte followed by the third byte. */
  function Read(d: Driver, request: Mcp300x.Request): (r: Result<Mcp3008Response, Error>)
    ensures r.Err? && r.error == InvalidArgument <==> IsArgInvalid(request)
    ensures r.Err? && r.error.Wrapped? <==>
      !IsArgInvalid(request) && d.spi(Mcp300x.TxFrame(request)).Err?
    ensures r.Ok? ==> r.value.value < 1024
  {
    if IsArgInvalid(request) then Err(InvalidArgument)
    else
      var reply := d.spi(Mcp300x.TxFrame(request));
      if reply.Err? then Err(Wrapped(reply.error))
      else
        var high: int := reply.value[1] % 4;
        Ok(Mcp3008Response(high * 0x100 + reply.value[2]))
  }

  /** Both drivers refuse the same requests. */
  lemma SameArgumentCheck(request: Mcp300x.Request)
    ensures IsArgInvalid(request) <==> Mcp300x.IsArgInvalid3008(request)
  {
  }

  /** A reply carrying `value` in its low ten bits, with any bits above it
      in the second byte, the null bit among them. */
  function ReplyOf(value: nat, first: u8, high: nat): (rx: Mcp300x.Frame)
    requires value < 1024 && high < 64
  {
    [first, high * 4 + value / 0x100, value % 0x100]
  }

  /** A valid request answered with a reply carrying `value` reads as
      `value`, whatever the other bits of the reply are, the null bit
      included. */
  lemma {:induction false} ReadOfReply(d: Driver, request: Mcp300x.Request, value: nat, first: u8, high: nat)
    requires !IsArgInvalid(request) && value < 1024 && high < 64
    requires d.spi(Mcp300x.TxFrame(request)) == Ok(ReplyOf(value, first, high))
    ensures Read(d, request) == Ok(Mcp3008Response(value))
  {
    var rx := ReplyOf(value, first, high);
    assert rx[1] % 4 == value / 0x100;
  }

  /** Where the two drivers meet: with the null bit clear, this driver's read
      is the MCP300x driver's `read_mcp3008`, error for error; with it set,
      this driver reports a reading where the MCP300x driver reports
      BadData. */
  lemma AgreesWithMcp300x(d: Driver, request: Mcp300x.Request)
    ensures IsArgInvalid(request) ==>
      Read(d, request) == Err(InvalidArgument) &&
      Mcp300x.ReadMcp3008(request, d.spi) == Err(Mcp300x.InvalidArgument)
    ensures !IsArgInvalid(request) && d.spi(Mcp300x.TxFrame(request)).Err? ==>
      Read(d, request) == Err(Wrapped(d.spi(Mcp300x.TxFrame(request)).error)) &&
      Mcp300x.ReadMcp3008(request, d.spi) == Err(Mcp300x.Wrapped(d.spi(Mcp300x.TxFrame(request)).error))
    ensures !IsArgInvalid(request) && d.spi(Mcp300x.TxFrame(request)).Ok? ==>
      var rx := d.spi(Mcp300x.TxFrame(request)).value;
      Read(d, request).Ok? &&
      (rx[1] / 4 % 2 == 0 ==> Mcp300x.ReadMcp3008(request, d.spi) == Ok(Read(d, request).value.value)) &&
      (rx[1] / 4 % 2 == 1 ==> Mcp300x.ReadMcp3008(request, d.spi) == Err(Mcp300x.BadData))
  {
  }
}
