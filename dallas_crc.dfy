/** The Dallas/Maxim CRC-8 that guards a DS18B20's ROM code and scratchpad,
    fed one byte at a time, least significant bit first. */
module DallasCrc {
  import opened Common

  /** One bit of the Dallas CRC-8 (polynomial x^8 + x^5 + x^4 + 1, shifted
      right, so 0x8C reflected), the data bit taken from bit 0 of `bit`. */
  function CrcStep(crc: bv8, bit: bv8): bv8
  {
    if (crc ^ bit) & 1 == 1 then (crc >> 1) ^ 0x8C else crc >> 1
  }

  /** The eight bits of a byte, least significant first. */
  function CrcByte(crc: bv8, b: bv8): bv8
  {
    var c1 := CrcStep(crc, b);
    var c2 := CrcStep(c1, b >> 1);
    var c3 := CrcStep(c2, b >> 2);
    var c4 := CrcStep(c3, b >> 3);
    var c5 := CrcStep(c4, b >> 4);
    var c6 := CrcStep(c5, b >> 5);
    var c7 := CrcStep(c6, b >> 6);
    CrcStep(c7, b >> 7)
  }

  /** The CRC of a byte string, starting from 0. */
  function Crc8(data: seq<u8>): bv8
  {
    if |data| == 0 then 0 else CrcByte(Crc8(data[..|data| - 1]), data[|data| - 1] as bv8)
  }

  lemma CrcByteOfItself(c: bv8)
    ensures CrcByte(c, c) == 0
  {
    CrcByteXor(c, c);
  }

  /** A byte fed to the CRC is the same as a zero byte fed to the CRC with
      the byte added in. */
  lemma CrcByteXor(c: bv8, b: bv8)
    ensures CrcByte(c, b) == CrcByte(c ^ b, 0)
  {
  }

  /** A zero byte maps different CRCs to different CRCs. */
  lemma CrcOfZeroInjective(x: bv8, y: bv8)
    requires CrcByte(x, 0) == CrcByte(y, 0)
    ensures x == y
  {
  }

  /** Two feeds that end on the same CRC started from the same CRC exactly
      when they fed the same byte. */
  lemma CrcByteInjective(c: bv8, c': bv8, b: bv8, b': bv8)
    ensures CrcByte(c, b) == CrcByte(c', b') ==> (c == c' <==> b == b')
  {
    if CrcByte(c, b) == CrcByte(c', b') {
      assert c ^ b == c' ^ b' by {
        CrcByteXor(c, b);
        CrcByteXor(c', b');
        CrcOfZeroInjective(c ^ b, c' ^ b');
      }
      XorCancels(c, b, c', b');
    }
  }

  lemma XorCancels(c: bv8, b: bv8, c': bv8, b': bv8)
    requires c ^ b == c' ^ b'
    ensures c == c' <==> b == b'
  {
  }

  /** A byte keeps its value as an 8-bit vector. */
  lemma ByteAsBv8(x: u8)
    ensures (x as bv8) as int == x
  {
    assert x == x % 0x100;
  }

  /** Following a string by its CRC leaves a CRC of zero. */
  lemma Crc8Residue(data: seq<u8>)
    ensures Crc8(data + [Crc8(data) as int]) == 0
  {
    var full := data + [Crc8(data) as int];
    assert full[..|full| - 1] == data;
    CrcByteOfItself(Crc8(data));
  }

  /** The corrected check notices any one corrupted byte. */
  lemma {:induction false} Crc8DetectsByteChange(data: seq<u8>, k: nat, v: u8)
    requires k < |data| && v != data[k]
    ensures Crc8(data[k := v]) != Crc8(data)
  {
    var n := |data|;
    var changed := data[k := v];
    if k == n - 1 {
      assert changed[..n - 1] == data[..n - 1];
      ByteAsBv8(v);
      ByteAsBv8(data[k]);
      CrcByteInjective(Crc8(data[..n - 1]), Crc8(data[..n - 1]), v as bv8, data[k] as bv8);
    } else {
      assert changed[..n - 1] == data[..n - 1][k := v];
      Crc8DetectsByteChange(data[..n - 1], k, v);
      CrcByteInjective(Crc8(changed[..n - 1]), Crc8(data[..n - 1]), data[n - 1] as bv8, data[n - 1] as bv8);
    }
  }

  lemma Crc8Snoc(prefix: seq<u8>, b: u8)
    ensures Crc8(prefix + [b]) == CrcByte(Crc8(prefix), b as bv8)
  {
    assert (prefix + [b])[..|prefix|] == prefix;
  }

  /** One byte more, stated on known CRC values. */
  lemma Crc8Step(prefix: seq<u8>, b: u8, bits: bv8, c: bv8, c': bv8)
    requires bits as int == b
    requires Crc8(prefix) == c && CrcByte(c, bits) == c'
    ensures Crc8(prefix + [b]) == c'
  {
    ByteAsBv8(b);
    Crc8Snoc(prefix, b);
  }

  /** The CRC after each byte of the scratchpad a DS18B20 holds at power-on. */
  lemma PowerOnCrcBytes()
    ensures CrcByte(0, 0x50) == 0xDB && CrcByte(0xDB, 0x05) == 0x48
    ensures CrcByte(0x48, 0x4B) == 0xE2 && CrcByte(0xE2, 0x46) == 0xCE
    ensures CrcByte(0xCE, 0x7F) == 0x6C && CrcByte(0x6C, 0xFF) == 0xF3
    ensures CrcByte(0xF3, 0x0C) == 0x35 && CrcByte(0x35, 0x10) == 0x1C
  {
  }

}
