# rust-simple-sensors in Dafny

This project models the decode logic of the `rust-simple-sensors` driver crate and proves properties about it. It covers five drivers:

- **`dhtxx`**: the DHT11/DHT22 driver. It covers:
  - the options check of `new`;
  - the `DhtBase` pin state machine (output mode, input mode, `last_read_time`);
  - the ACK, bit and end-pulse samplers;
  - the adaptive short/long tick threshold (`determine_tick_threshold`);
  - `parse_byte`;
  - the parity and end-pulse checks of `receive_data`;
  - the two response decoders with their range checks;
  - the retrying `read`.
- **`dht11`**: the older single-sensor DHT11 driver. It has the same samplers and threshold. It also has:
  - a settable minimum read interval;
  - forced and masked decimal bytes;
  - separate `Timeout` and `BadParity` errors.
- **`ds18b20`**: the DS18B20 one-wire driver. It covers:
  - the fixed-point temperature decode and its rounding;
  - the resolution byte and the conversion-time table;
  - the `DeviceId` fields;
  - the reset and presence decision;
  - byte write and read, least significant bit first;
  - `read_temperature` with its scratchpad check (`compute_crc`).
- **`mcp300x`**: the MCP3004/MCP3008 ADC driver. It covers:
  - the control bits of a request;
  - the per-device argument check;
  - the three-byte request frame;
  - the null-bit check;
  - the 10-bit result.
- **`mcp3008`**: its MCP3008-only predecessor.

Modules and files:

| file | module | models |
|---|---|---|
| common.dfy | Common | integer widths, `Result`, `Option`, powers of two |
| dht_line.dfy | DhtLine | the DHT data pin, the clock, and the counting loops over pin samples |
| dht_threshold.dfy | DhtThreshold | `determine_tick_threshold`, as a specification function and as the imperative algorithm over arrays |
| dht_frame.dfy | DhtFrame | `parse_byte`, the parity byte, the 40-bit frame, and two-level pulse trains |
| dhtxx.dfy | Dhtxx | `src/dhtxx.rs`: responses, options, samplers, `DhtBase`, and the `Dht11`/`Dht22` drivers |
| dht11.dfy | Dht11 | `src/dht11.rs` |
| one_wire.dfy | OneWire | `reset`, `write_byte`/`write_bit` and `read_byte`/`read_bit` of `src/ds18b20.rs` |
| dallas_crc.dfy | DallasCrc | the Dallas/Maxim CRC-8 (the corrected scratchpad check, see Findings) |
| ds18b20.dfy | Ds18b20 | the rest of `src/ds18b20.rs` |
| mcp300x.dfy | Mcp300x | `src/mcp300x.rs` |
| mcp3008.dfy | Mcp3008 | `src/mcp3008.rs` |

Modelling choices:

- **Input pins.** An input pin is the finite sequence of levels that successive `is_high`/`is_low` queries observe. Each query consumes one sample, so the sample that ends a `while` loop is consumed. A query with no sample left is a failed read of the pin: `Wrapped` for the DHT drivers and `WrappedInput` for the DS18B20.
- **Output pins.** Output pins log the levels the host drives.
- **DHT time.** Time is a `Clock` object with `now` in milliseconds and a log of sleeps. The ACK watchdog's test "more than 2 ms since the start" is an oracle `nat -> bool` that the driver holds. It is consulted every 1000 counts, as in the source.
- **One-wire time.** On the one-wire bus, delays are `Wait` events in the host's trace.
- **Integers.** Integers are unbounded with subset types (`u8`, `u16`, `u32`, `u64`, `i8`, `i16`). Bitwise operations become exact arithmetic:
  - `x & 0xF` is `x % 16`;
  - `x >> 4` is `x / 16`;
  - `0b1000 | c` sets bit 3;
  - `to_bits() << 4` on a `u8` is `x * 16 % 256`;
  - `compute_crc`'s wrapping `u64` products are written out modulo 2^64.
- **Tick counts.** The tick counts of a DHT frame are bounded by 2^28 (`TickLimit`), so the `u32` arithmetic of the threshold (`range`, `(t - min) * 10`) and of `ack << 2` cannot overflow. A pin carries fewer than 2^28 samples.
- **Imperative code stays imperative.** Loops become methods with invariants. Each is proved equal to a specification function, and the properties are proved as lemmas about those functions. This covers:
  - `determine_tick_threshold` over `buckets`/`peaks` arrays;
  - `parse_byte`;
  - the samplers;
  - the `read` retry loop;
  - `DeviceId::serial`;
  - `read_byte`/`write_byte`;
  - the scratchpad loops of `read_temperature`.
- **Classes.** The structs whose fields the source updates in place are classes with `modifies` clauses: `DhtBase`, the `Dht11`/`Dht22` driver (`Dht`) and `dht11::Dht11`.

## Model

| member | source | states |
|---|---|---|
| DhtThreshold.LowestIsMinimum | src/dhtxx.rs:537-547 | `min` after the first loop is an element of the ticks and at most every tick |
| DhtThreshold.HighestIsMaximum | src/dhtxx.rs:537-547 | `max` is an element of the ticks and at least every tick |
| DhtThreshold.FindRange | src/dhtxx.rs:537-547 | the loop leaves the minimum and the maximum of the ticks |
| DhtThreshold.BucketIndex | src/dhtxx.rs:553-556 | the bucket `(t - min) * 10 / range`, clamped to 9, is always one of the ten buckets |
| DhtThreshold.HistogramTotal | src/dhtxx.rs:550-558 | every tick is counted in exactly one bucket: the counts sum to the number of ticks |
| DhtThreshold.HistogramOccupied | src/dhtxx.rs:550-558 | a bucket's count is non-zero exactly when some tick falls in it |
| DhtThreshold.FillHistogram | src/dhtxx.rs:550-558 | the histogram loop fills a fresh array with the specification's histogram |
| DhtThreshold.PeaksBelowFacts | src/dhtxx.rs:561-573 | the peaks found are in increasing bucket order, at most one in two buckets, and each is a non-empty bucket whose count is above the previous bucket's and which is the last bucket or above the next |
| DhtThreshold.FindPeaks | src/dhtxx.rs:561-573 | the peak loop fills the `peaks` array with the found peaks, then `Peak(-1, 0)` padding, and counts them |
| DhtThreshold.RankAllFindsTopTwo | src/dhtxx.rs:582-592 | scanning the peaks keeps the highest and second-highest counts, ties going to the earlier bucket |
| DhtThreshold.RankAllIgnoresPadding | src/dhtxx.rs:582-592 | the `Peak(-1, 0)` padding never displaces a real peak |
| DhtThreshold.SelectedPeaks | src/dhtxx.rs:580-592 | with two or more peaks, the pair picked from the padded table is the top two of the real peaks |
| DhtThreshold.SelectTopTwo | src/dhtxx.rs:582-592 | the selection loop returns the pair the specification ranks first and second |
| DhtThreshold.IndexToTicks | src/dhtxx.rs:595-602 | the tick value of any bucket index lies in [min, max] |
| DhtThreshold.IndexToTicksMonotone | src/dhtxx.rs:595-602 | a higher bucket never maps to fewer ticks |
| DhtThreshold.TickThreshold | src/dhtxx.rs:536-615 | the threshold (midpoint with fewer than two peaks, else the floor mean of the two highest peaks' tick values) always lies in [min, max] |
| DhtThreshold.DetermineTickThreshold | src/dhtxx.rs:536-615 | the imperative algorithm over the `buckets` and `peaks` arrays computes TickThreshold |
| DhtFrame.ParsedByte | src/dhtxx.rs:617-625 | bit `7 - i` of the parsed byte is set iff tick `i` exceeds the threshold |
| DhtFrame.ParseByte | src/dhtxx.rs:617-625 | the OR-ing loop computes ParsedByte |
| DhtFrame.ValueOfBitsOf | src/dhtxx.rs:617-625 | reading the MSB-first bits of a byte gives back the byte |
| DhtFrame.BitsOfValueOf | src/dhtxx.rs:617-625 | the MSB-first bits of the value of a bit string are that string |
| DhtFrame.BeBytes16 | src/dhtxx.rs:429 | `to_be_bytes` of a u16 gives two bytes, high then low, that recombine to the value as `high * 256 + low` |
| DhtFrame.ChecksumOfBytes | src/dhtxx.rs:426-429 | the expected parity `sum.to_be_bytes()[1]` of the u16 sum of four bytes is `(b0 + b1 + b2 + b3) mod 256` |
| DhtFrame.ChecksumDetectsByteChange | src/dhtxx.rs:426-432 | changing any one payload byte changes the expected parity |
| DhtFrame.FrameBytesRecovered | src/dhtxx.rs:419-424 | each of the five byte slices of a frame's ticks parses back to that byte when the ticks are classified correctly |
| DhtFrame.TwoLevelRecovery | src/dhtxx.rs:536-625 | for bits with at least one zero sent with two pulse lengths, the threshold classifies every pulse correctly |
| DhtFrame.ShortLongThreshold | src/dhtxx.rs:576-614 | when the ticks take exactly two values, the threshold is below the long one |
| DhtFrame.ParseFrame | src/dhtxx.rs:420-424 | the five `parse_byte` calls give the five bytes of ParsedBytes |
| DhtFrame.ParsedFrameOfPulses | src/dhtxx.rs:419-424 | a frame sent as short/long pulses parses back to its five bytes |
| DhtLine.PollWhile | src/dhtxx.rs:460-472 | the counting `while` loop over pin samples computes PollSpec (the counter, what stopped it, and the samples left) |
| DhtLine.PollRun | src/dhtxx.rs:460-472 | a run of `n` equal levels then a change is counted as `n` and consumes the change |
| DhtLine.BitOfPulse | src/dhtxx.rs:453-474 | a bit pulse within the timeout counts low plus high samples |
| DhtLine.LongPulseTimesOut | src/dhtxx.rs:463-471 | a pulse longer than the timeout stops the sampler |
| DhtLine.SampleFramePulses | src/dhtxx.rs:400-408 | sampling forty ideal pulses gives their lengths and consumes exactly them |
| DhtLine.Clock.Sleep | src/dhtxx.rs:347-350 | a delay advances the clock by its duration and is logged |
| Dhtxx.FromRawBytesRoundTrip | src/dhtxx.rs:53-60 | the DHT11 and DHT22 decoders (bytes copied, or big-endian u16s) are bijections between payloads and readings |
| Dhtxx.IsValidRanges | src/dhtxx.rs:62-108 | a DHT11 reading is valid iff both decimals are below 10, humidity ≤ 100.0 and temperature ≤ 75.0; a DHT22 reading iff humidity_x10 ≤ 1000 and the signed temperature is in [-600, 1500] tenths |
| Dhtxx.CheckOptions | src/dhtxx.rs:198-211 | `None` gives the variant's defaults; given options are accepted, unchanged, iff the interval is at least the minimum and `max_attempts ≥ 1`, else `InvalidArgument` |
| Dhtxx.ReadAck | src/dhtxx.rs:495-530 | the three ACK loops compute AckSpec (the count, NoResponse from the watchdog in the first two, Wrapped on a failed read) |
| Dhtxx.BitTimeout | src/dhtxx.rs:398 | `ack_counter << 2` is four times the count |
| Dhtxx.ReadBitWithTimeout | src/dhtxx.rs:453-474 | returns the low+high count when the level changes, BadData past the timeout, Wrapped on a failed read |
| Dhtxx.ReadEndWithTimeout | src/dhtxx.rs:477-492 | the end sampler computes EndSpec |
| Dhtxx.ReadFrameBits | src/dhtxx.rs:400-408 | the forty-bit loop fills the ticks the bit specification samples, or stops at its first error |
| Dhtxx.DecodeFrame | src/dhtxx.rs:419-436 | a frame is accepted iff the parity byte equals the low byte of the payload sum and the end pulse does not exceed the threshold; otherwise BadData |
| Dhtxx.DecodeBits | src/dhtxx.rs:419-436 | the threshold, five `parse_byte` calls and the checks compute DecodeFrame |
| Dhtxx.DecodeWithThreshold | src/dhtxx.rs:420-436 | the byte parsing and the parity and end checks for a given threshold |
| Dhtxx.CorruptedByteRejected | src/dhtxx.rs:426-434 | a parsed frame that differs from a sensor's frame in one byte (payload or parity) is rejected with BadData |
| Dhtxx.DecodeFrameOfPulses | src/dhtxx.rs:419-436 | a frame sent with two pulse lengths and a short end pulse decodes to its payload |
| Dhtxx.AckOfSamples | src/dhtxx.rs:495-530 | an acknowledgement with no watchdog expiry is counted as the length of its three phases |
| Dhtxx.ReceivePhases | src/dhtxx.rs:379-437 | `receive_data` is the ACK, the forty bits, the end pulse and the decode, in order |
| Dhtxx.ReceiveIdealFrame | src/dhtxx.rs:379-437 | a sensor that acknowledges, sends the frame of a payload with two pulse lengths and ends it, is received as that payload, consuming exactly its samples |
| Dhtxx.IntervalWait | src/dhtxx.rs:346-350 | the wait before a read is `min_read_interval - elapsed` when elapsed is smaller and nothing otherwise, so the interval is always met |
| Dhtxx.ReadSleepsRetries | src/dhtxx.rs:232-240 | the sleeps of `n + 1` attempts are the first attempt's remaining interval and ping, then for every retry the whole minimum read interval and the ping again, since each attempt leaves `last_read_time` at the current time |
| Dhtxx.ReadDrivenRetries | src/dhtxx.rs:232-240 | the levels driven by `n + 1` attempts are high once if the pin was in input mode, then low and high for every attempt |
| Dhtxx.DhtBase.constructor | src/dhtxx.rs:306-318 | the pin starts in output mode and `last_read_time` is the current time |
| Dhtxx.DhtBase.SwapToOutputMode | src/dhtxx.rs:439-449 | the pin moves from input to output mode driven high, and `last_read_time` is refreshed |
| Dhtxx.DhtBase.RequestData | src/dhtxx.rs:361-377 | the line is driven low for the ping duration |
| Dhtxx.DhtBase.ReceiveData | src/dhtxx.rs:379-437 | returns ReceiveSpec of the pin's samples, always ends in output mode driven high, and refreshes `last_read_time` |
| Dhtxx.DhtBase.Read | src/dhtxx.rs:330-359 | ensures output mode, sleeps exactly the rest of the minimum interval, pings, and returns the decoded reading, or BadData when it is out of range |
| Dhtxx.Dht.New | src/dhtxx.rs:192-212 | the driver is built iff CheckOptions accepts the options, over a base in output mode |
| Dhtxx.Dht.Attempt | src/dhtxx.rs:233-241 | one attempt is DhtBase::read with the sensor's ping and interval: its result and the samples it leaves are AttemptSpec, it sleeps what is left of the interval and then the ping, drives high (when the pin was in input mode), low, high, and sets `last_read_time` to now |
| Dhtxx.Dht.Read | src/dhtxx.rs:231-252 | at most `max_attempts` attempts, every one but the last retryable, stopping at the first reading or NoResponse, and returning the last attempt's result; the results and the samples consumed are AttemptsSpec of the attempts made, the clock's sleeps are ReadSleeps and the driven levels ReadDriven of that many attempts, and `last_read_time` is the current time |
| Dht11.FromRawBytesRoundTrip | src/dht11.rs:31-38 | `from_raw_bytes` reinterprets byte 2 as an i8 and copies the others, and is a bijection |
| Dht11.ReadAck | src/dht11.rs:253-268 | the three unbounded ACK loops count the acknowledgement; only a failed read stops them |
| Dht11.ReadBitWithTimeout | src/dht11.rs:229-250 | returns the low+high count, Timeout past `ack << 2`, Wrapped on a failed read |
| Dht11.LongPulseIsTimeout | src/dht11.rs:178-188 | a bit pulse longer than the timeout gives Timeout |
| Dht11.ReadFrameBits | src/dht11.rs:180-188 | the forty-bit loop fills the ticks or stops at the first error |
| Dht11.Normalized | src/dht11.rs:192-201 | the payload has the humidity decimal forced to 0 and the temperature decimal masked to 4 bits |
| Dht11.DecodeFrame | src/dht11.rs:192-212 | accepted iff the parity byte equals the checksum of the normalized payload, else BadParity; no end pulse is checked |
| Dht11.DecodeBits | src/dht11.rs:192-212 | the imperative decode computes DecodeFrame |
| Dht11.DecodeWithThreshold | src/dht11.rs:193-212 | the byte parsing and the parity check for a given threshold |
| Dht11.DecodeFrameOfPulses | src/dht11.rs:192-212 | a frame with a zero humidity decimal and a one-digit temperature decimal, sent as two pulse lengths, decodes to its payload |
| Dht11.HumidityDecimalIgnored | src/dht11.rs:194-196 | whatever the humidity-decimal byte is, a frame whose parity covers a zero there decodes |
| Dht11.NormalizedUpdate | src/dht11.rs:192-201 | corrupting byte 1 or the parity leaves the normalized payload unchanged, and any other byte changes only itself |
| Dht11.CorruptedByteRejected | src/dht11.rs:203-210 | a corrupted byte that survives normalization gives BadParity |
| Dht11.Dht11.constructor | src/dht11.rs:79-92 | output mode, the default 1000 ms interval, and `last_read_time` now |
| Dht11.Dht11.SetMinimumReadInterval | src/dht11.rs:96-106 | rejects intervals below 1000 ms with InvalidArgument, leaving the field unchanged; otherwise stores the value |
| Dht11.Dht11.SwapToOutputMode | src/dht11.rs:215-225 | input to output mode driven high, `last_read_time` refreshed |
| Dht11.Dht11.RequestData | src/dht11.rs:142-157 | the line is driven low for 18 ms |
| Dht11.Dht11.ReceiveData | src/dht11.rs:159-213 | returns ReceiveSpec of the pin's samples and always ends in output mode |
| Dht11.Dht11.Read | src/dht11.rs:118-140 | sleeps exactly `minimum_read_interval - elapsed` when elapsed is smaller and not otherwise, then requests, receives and decodes |
| OneWire.Reset | src/ds18b20.rs:360-408 | NoSensorsFound iff the line is high at both presence samples; the trace holds the reset pulse, the samples and the waits |
| OneWire.WriteByte | src/ds18b20.rs:410-430 | the shifting loop emits the write slots of the byte's bits, least significant first |
| OneWire.ReadByte | src/ds18b20.rs:432-460 | the loop accumulates sample `k` as bit `k` (ReadByteSpec); it fails iff fewer than 8 samples remain |
| OneWire.LsbBitsRoundTrip | src/ds18b20.rs:421-453 | accumulating the LSB-first bits of a value gives back the value |
| OneWire.ReadByteOfWritten | src/ds18b20.rs:432-460 | reading the eight bits of a byte, least significant first, returns the byte and consumes exactly them |
| OneWire.DeviceReadsWrittenByte | src/ds18b20.rs:410-430 | the bits a device samples in the write slots of a byte are its LSB-first bits, which give back the byte |
| Ds18b20.FromBytes | src/ds18b20.rs:125-141 | `integer * 16 + decimal` is the 16-bit two's-complement register value; decimal in 0..15 when high ≤ 0x7F, in -16..-1 otherwise |
| Ds18b20.FromBytesInjective | src/ds18b20.rs:125-141 | distinct registers give distinct temperatures |
| Ds18b20.FromBytesExamples | src/ds18b20.rs:559-625 | the decoded values of the test registers, including the negative-zero integer part of (0xF0, 0xFF) and (0xF1, 0xFF) |
| Ds18b20.NearestIntegerAsWritten | src/ds18b20.rs:160-162 | `nearest_integer` rounds to nearest with halves away from zero, except at whole negative degrees, which come out one too low |
| Ds18b20.NearestIntegerMinusOne | src/ds18b20.rs:160-162 | -1.0 degrees, register (0xF0, 0xFF), rounds to -2 |
| Ds18b20.NearestIntegerCorrectedRounds | src/ds18b20.rs:160-162 | the corrected rounding rounds every register value to nearest, halves away from zero |
| Ds18b20.NearestIntegerExamples | src/ds18b20.rs:601-625 | the rounding examples of the tests: 0x130, 0x12F, -25, -26 |
| Ds18b20.ConfigurationByte | src/ds18b20.rs:66-68 | the low five bits of the byte are 0x0F and the mode code sits above them |
| Ds18b20.ConfigurationRoundTrip | src/ds18b20.rs:66-68 | the mode is recovered from its configuration byte |
| Ds18b20.ConversionTimeDoubles | src/ds18b20.rs:29-32 | the conversion time is 93,750 µs doubled per extra bit of resolution |
| Ds18b20.Serial | src/ds18b20.rs:87-93 | the copy loop gives bytes 1..6 read little-endian, below 2^48 |
| Ds18b20.DeviceIdFields | src/ds18b20.rs:82-97 | the ROM code is the family code, the six serial bytes little-endian, and the CRC byte |
| Ds18b20.CalculatedCrcOfFamilyCode | src/ds18b20.rs:99-115 | `calculated_crc`, `compute_crc` of the ROM code with byte 7 cleared, depends on the family code (byte 0) alone |
| Ds18b20.CalculatedCrcOfDs18b20 | src/ds18b20.rs:99-115 | for the DS18B20 family code 0x28 `calculated_crc` is 1 whatever the serial |
| Ds18b20.LittleEndianRoundTrip | src/ds18b20.rs:227-236 | the little-endian value of bytes converts back to the same bytes |
| Ds18b20.ScratchpadValue | src/ds18b20.rs:227-236 | the shift-and-add loop gives bytes 0..7 read little-endian as a u64 |
| Ds18b20.ComputeCrcOfLowByte | src/ds18b20.rs:109-115 | `compute_crc` of a wrapping-u64 value depends only on its low byte |
| Ds18b20.CrcMatchesLowByte | src/ds18b20.rs:237-242 | the scratchpad check compares byte 8 with a polynomial in byte 0 |
| Ds18b20.CrcMatchesIgnoresMiddleBytes | src/ds18b20.rs:227-242 | a corruption of any of bytes 1 to 7 goes unnoticed |
| Ds18b20.PowerOnScratchpadRejected | src/ds18b20.rs:237-242 | a genuine scratchpad with a correct Dallas CRC-8 is rejected |
| Ds18b20.ScratchpadIntactExamples | src/ds18b20.rs:237-242 | the Dallas CRC-8 check accepts the power-on scratchpad and rejects it with any one byte changed |
| Ds18b20.SendCommands | src/ds18b20.rs:211-219 | reset, Skip ROM, Convert T, the 750 ms conversion wait, reset, Skip ROM, Read Scratchpad, stopping at the first failed reset |
| Ds18b20.ReadBytes | src/ds18b20.rs:220-225 | the loop fills the nine-byte array with ReadBytesSpec |
| Ds18b20.CommandsSpec | src/ds18b20.rs:211-219 | the commands succeed iff both resets find a device (the first four samples), leaving the samples after them; NoSensorsFound iff a reset samples the line high twice; WrappedInput otherwise |
| Ds18b20.ReadBytesSpec | src/ds18b20.rs:220-225 | reading `n` bytes succeeds iff `8n` samples remain, gives `n` bytes and consumes exactly those samples; a failure is WrappedInput |
| Ds18b20.ReadTemperatureSpec | src/ds18b20.rs:189-253 | NoSensorsFound iff a reset is unanswered; WrappedInput iff no reset is unanswered and it is not the case that both are answered with at least 4 + 72 samples (the line runs out inside a reset or inside the scratchpad); BadData iff the nine bytes are read and `compute_crc` of bytes 0..7 differs from byte 8; Ok iff they are read and the check passes, with the temperature of bytes 0 and 1 and the samples after the 76 consumed; no other error |
| Ds18b20.ReadBytesOfWritten | src/ds18b20.rs:220-225 | reading `n` bytes of what a device sends for a byte sequence returns its first `n` bytes and leaves the bits of the others |
| Ds18b20.ReadTemperatureOfScratchpad | src/ds18b20.rs:189-253 | a device that answers both resets and sends a scratchpad is read as the temperature of its bytes 0 and 1 when the check passes, and as BadData when it fails |
| Ds18b20.ScratchpadSpec | src/ds18b20.rs:220-253 | once the commands are sent, the read fails only with WrappedInput (too few samples) or BadData (the check) |
| Ds18b20.ScratchpadOfWritten | src/ds18b20.rs:220-253 | nine sent bytes are read as the temperature of bytes 0 and 1, leaving the samples after them, when the check passes, and as BadData when it fails |
| Ds18b20.ReadTemperature | src/ds18b20.rs:189-253 | the imperative read computes ReadTemperatureSpec |
| DallasCrc.Crc8Residue | src/ds18b20.rs:237-239 | appending its CRC-8 to a message gives a CRC-8 of zero |
| DallasCrc.Crc8DetectsByteChange | src/ds18b20.rs:237-239 | the CRC-8 detects any change of a single byte |
| Mcp300x.ToBitsExamples | src/mcp300x.rs:84-93 | `to_bits` gives channel + 8 for channels 0..7 and the mode ordinal 0..7 for differential reads |
| Mcp300x.ToBitsSingleEndedIsOr | src/mcp300x.rs:86-88 | the single-ended encoding sets bit 3 and keeps every other bit of the channel |
| Mcp300x.ToBitsRoundTrip | src/mcp300x.rs:84-93 | every request an MCP3008 accepts fits in a nibble that decodes back to it |
| Mcp300x.ToBitsInjective | src/mcp300x.rs:84-93 | two accepted requests have the same control bits iff they are the same request |
| Mcp300x.Mcp3004Accepts | src/mcp300x.rs:139-146 | the MCP3004 accepts exactly the MCP3008-valid requests whose select bits are below 4 |
| Mcp300x.TxFrameLayout | src/mcp300x.rs:159 | the frame is the start bit, then the control bits in the high nibble of byte 1, then a zero byte |
| Mcp300x.TxFrameExample | src/mcp300x.rs:159 | `SingleEnded(1)` is sent as `[0x01, 0x90, 0x00]` |
| Mcp300x.DecodeReply | src/mcp300x.rs:162-168 | BadData iff the null bit (bit 2 of byte 1) is set; otherwise a value below 1024 |
| Mcp300x.DecodeReplyOf | src/mcp300x.rs:162-168 | a reply carrying a value with a clear null bit decodes to that value, whatever byte 0 and the upper bits are |
| Mcp300x.ReplyOfDecode | src/mcp300x.rs:168 | every reply that decodes is such a reply for its own value |
| Mcp300x.DecodeReplyIgnores | src/mcp300x.rs:168 | the result depends only on the low three bits of byte 1 and on byte 2 |
| Mcp300x.Read | src/mcp300x.rs:148-169 | Wrapped iff the transfer fails, never InvalidArgument, and any value is below 1024 |
| Mcp300x.ReadMcp3004 | src/mcp300x.rs:124-142 | InvalidArgument iff channel ≥ 4 or a mode after ThreeMinusTwo; otherwise `read` |
| Mcp300x.ReadMcp3008 | src/mcp300x.rs:124-146 | InvalidArgument iff channel ≥ 8; every differential mode accepted; otherwise `read` |
| Mcp300x.InvalidRequestNeverTransfers | src/mcp300x.rs:131-134 | an invalid request is refused whatever the bus would answer |
| Mcp300x.ReadOfReply | src/mcp300x.rs:124-169 | a valid request answered with a reply carrying a value reads as that value |
| Mcp3008.New | src/mcp3008.rs:119-121 | the driver holds the given bus |
| Mcp3008.Read | src/mcp3008.rs:124-143 | InvalidArgument iff a single-ended channel ≥ 8, Wrapped iff the transfer fails, otherwise a value below 1024 |
| Mcp3008.SameArgumentCheck | src/mcp3008.rs:125-129 | the older driver refuses exactly the requests `read_mcp3008` refuses |
| Mcp3008.ReadOfReply | src/mcp3008.rs:139-142 | a valid request answered with a value reads as that value, whatever the other reply bits, the null bit included |
| Mcp3008.AgreesWithMcp300x | src/mcp3008.rs:124-143 | the old and new drivers agree error for error and value for value, except that a set null bit is a reading here and BadData in `read_mcp3008` |

## Left out

- Asynchrony. `read`'s `delay_fn` futures are a synchronous `Clock.Sleep`. `time_fn` and `elapsed_since_fn` are the clock's `now` and a subtraction.
- Floating point. `get_humidity`/`get_temperature`, the `f32`/`f64` conversions of `Temperature`, and `MAX_RESOLUTION_F32` are not modelled.
- Pin switching. HAL calls that switch pin mode, drive a level or delay never fail in the model, as in the test fakes. Only reads of an input pin can fail. The DS18B20 errors `WrappedDelay`, `WrappedIo` and `WrappedOutput` therefore exist but are never produced.
- The ACK watchdog's clock reading. The 2 ms comparison is the driver's `ackTimedOut` oracle, keyed by the counter at each 1000th count. One oracle serves every attempt of a retrying read, so two attempts that reach the same count see the same answer; the source starts a new timer in each `read_ack` (src/dhtxx.rs:505-525), whose answer may differ between attempts.
- The final unbounded loop of `read_ack`. It stops only at a level change or a failed read: the sample sequence is finite.
- Hardware timing. The one-wire microsecond delays are recorded as `Wait` events in a trace, not as real time.
- `shift_crc_bit`. It is never called.
- `RomCommand`/`FunctionCommand`. Only the three codes `read_temperature` sends are constants.
- `lib.rs` and the SPI clock constants. They are declarations only.
- The SPI bus. `Transfer` is a total function from the sent frame to a reply frame or an error code. `Mcp3008` holds it as a value, so `&mut` aliasing of the bus is not modelled.
- The test doubles under `tests/fake_hal/` and the DHT11 test file are not part of this model.
- Dhtxx.ReceiveSpec: the tick counts are bounded by 2^28 (`TickLimit`), so `u32` wrap-around of the counters and of `ack_counter << 2` is not modelled.
- DhtThreshold.TickThreshold: it requires every tick below 2^28, so the `u32` overflow of `(t - min) * 10` for huge counts is not modelled.
- Mcp300x.ReadMcp3004: the doc comment of `SingleEnded` says an MCP3004 channel is in [0,4], but the code rejects 4 and above. The model follows the code.
- Mcp300x and Mcp3008 share one `Request`/`DifferentialMode` type and one `to_bits`, because the two files declare the same enums with the same encoding.

## Findings

| source | as written | input that shows it | evidently intended | confidence | as-written member | corrected member |
|---|---|---|---|---|---|---|
| src/ds18b20.rs:160-162 | `integer + signum(decimal) * (abs(decimal) >> 3)`; for a whole negative degree `from_bytes` gives decimal -16, so a further -2 is added | register (0xF0, 0xFF), i.e. -1.0 °C: integer 0, decimal -16, rounded to -2 | rounding to nearest, halves away from zero (the tests' "rounds away from zero"), i.e. -1 | high; not executed | Ds18b20.NearestIntegerAsWritten, Ds18b20.NearestIntegerMinusOne | Ds18b20.NearestIntegerCorrectedRounds |
| src/ds18b20.rs:109-115 | `compute_crc` (called at lines 237-242) of bytes 0..7 as a little-endian u64 depends only on byte 0 | the power-on scratchpad 50 05 4B 46 7F FF 0C 10 with CRC byte 0x1C: `compute_crc` gives 0x01, so the reading is BadData; changing bytes 1..7 is never noticed | the Dallas/Maxim CRC-8 (x^8 + x^5 + x^4 + 1) of bytes 0..7 equals byte 8 | medium (the source marks the CRC as unconfirmed); not executed | Ds18b20.PowerOnScratchpadRejected, Ds18b20.CrcMatchesIgnoresMiddleBytes | Ds18b20.ScratchpadIntactExamples, DallasCrc.Crc8DetectsByteChange |

`read_temperature` (Ds18b20.ReadTemperature) keeps the check as written. For the second finding, the corrected check is `Ds18b20.ScratchpadIntact`, over the CRC of `DallasCrc`.
