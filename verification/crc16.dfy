/** CRC-16/MODBUS as the gateway computes it: reflected polynomial 0xA001,
    initial value 0xFFFF, bit-serial, no final xor (MODBUS over Serial Line
    Specification V1.02, section 6.2.2 and Appendix B). The accumulator is
    16 bits wide; the source masks every shift with 0xFFFF, so `bv16` is exact. */
module Crc {
  import opened Base

  const Poly: bv16 := 0xA001
  const Init: bv16 := 0xFFFF

  /** One bit round: shift right, xor the polynomial when the dropped bit was set. */
  function Round(crc: bv16): bv16
  {
    if crc & 1 == 1 then (crc >> 1) ^ Poly else crc >> 1
  }

  /** `k` bit rounds, the last one applied outermost. */
  function Rounds(crc: bv16, k: nat): bv16
  {
    if k == 0 then crc else Round(Rounds(crc, k - 1))
  }

  /** The per-byte step: xor the byte into the low half, then eight rounds. */
  function Step(crc: bv16, b: byte): bv16
  {
    Rounds(crc ^ (b as bv16), 8)
  }

  /** The checksum as a left fold of `Step` over the data, starting from `crc`. */
  function CrcFrom(crc: bv16, data: seq<byte>): bv16
    decreases |data|
  {
    if |data| == 0 then crc else CrcFrom(Step(crc, data[0]), data[1..])
  }

  /** The CRC-16/MODBUS value of `data`, as an integer. */
  function Crc16(data: seq<byte>): (r: nat)
    ensures r < 0x10000
    ensures data == [] ==> r == 0xFFFF
  {
    CrcFrom(Init, data) as nat
  }

  /** The fold splits at any point: the checksum of `a + b` continues from the
      register value reached after `a`. */
  lemma {:induction false} CrcFromAppend(crc: bv16, a: seq<byte>, b: seq<byte>)
    ensures CrcFrom(crc, a + b) == CrcFrom(CrcFrom(crc, a), b)
    decreases |a|
  {
    if |a| > 0 {
      assert (a + b)[0] == a[0] && (a + b)[1..] == a[1..] + b;
      assert CrcFrom(crc, a + b) == CrcFrom(Step(crc, a[0]), a[1..] + b);
      CrcFromAppend(Step(crc, a[0]), a[1..], b);
    } else {
      assert a + b == b;
    }
  }

  /** Appending one byte applies one more step. */
  lemma CrcFromSnoc(crc: bv16, a: seq<byte>, x: byte)
    ensures CrcFrom(crc, a + [x]) == Step(CrcFrom(crc, a), x)
  {
    CrcFromAppend(crc, a, [x]);
  }

  /** Helper: bytes 1 to 3 of the check string, round by round. */
  lemma CheckValueSteps1to3()
    ensures Step(0xFFFF, 0x31) == 0x947E
    ensures Step(0x947E, 0x32) == 0xF595
    ensures Step(0xF595, 0x33) == 0x7A75
  {
    assert 0xFFFF ^ (0x31 as bv16) == 0xFFCE;
    assert Rounds(0xFFCE, 1) == 0x7FE7;
    assert Rounds(0xFFCE, 2) == 0x9FF2;
    assert Rounds(0xFFCE, 3) == 0x4FF9;
    assert Rounds(0xFFCE, 4) == 0x87FD;
    assert Rounds(0xFFCE, 5) == 0xE3FF;
    assert Rounds(0xFFCE, 6) == 0xD1FE;
    assert Rounds(0xFFCE, 7) == 0x68FF;
    assert Rounds(0xFFCE, 8) == 0x947E;
    assert 0x947E ^ (0x32 as bv16) == 0x944C;
    assert Rounds(0x944C, 1) == 0x4A26;
    assert Rounds(0x944C, 2) == 0x2513;
    assert Rounds(0x944C, 3) == 0xB288;
    assert Rounds(0x944C, 4) == 0x5944;
    assert Rounds(0x944C, 5) == 0x2CA2;
    assert Rounds(0x944C, 6) == 0x1651;
    assert Rounds(0x944C, 7) == 0xAB29;
    assert Rounds(0x944C, 8) == 0xF595;
    assert 0xF595 ^ (0x33 as bv16) == 0xF5A6;
    assert Rounds(0xF5A6, 1) == 0x7AD3;
    assert Rounds(0xF5A6, 2) == 0x9D68;
    assert Rounds(0xF5A6, 3) == 0x4EB4;
    assert Rounds(0xF5A6, 4) == 0x275A;
    assert Rounds(0xF5A6, 5) == 0x13AD;
    assert Rounds(0xF5A6, 6) == 0xA9D7;
    assert Rounds(0xF5A6, 7) == 0xF4EA;
    assert Rounds(0xF5A6, 8) == 0x7A75;
  }

  /** Helper: bytes 4 to 6 of the check string, round by round. */
  lemma CheckValueSteps4to6()
    ensures Step(0x7A75, 0x34) == 0x30BA
    ensures Step(0x30BA, 0x35) == 0xA471
    ensures Step(0xA471, 0x36) == 0x32E4
  {
    assert 0x7A75 ^ (0x34 as bv16) == 0x7A41;
    assert Rounds(0x7A41, 1) == 0x9D21;
    assert Rounds(0x7A41, 2) == 0xEE91;
    assert Rounds(0x7A41, 3) == 0xD749;
    assert Rounds(0x7A41, 4) == 0xCBA5;
    assert Rounds(0x7A41, 5) == 0xC5D3;
    assert Rounds(0x7A41, 6) == 0xC2E8;
    assert Rounds(0x7A41, 7) == 0x6174;
    assert Rounds(0x7A41, 8) == 0x30BA;
    assert 0x30BA ^ (0x35 as bv16) == 0x308F;
    assert Rounds(0x308F, 1) == 0xB846;
    assert Rounds(0x308F, 2) == 0x5C23;
    assert Rounds(0x308F, 3) == 0x8E10;
    assert Rounds(0x308F, 4) == 0x4708;
    assert Rounds(0x308F, 5) == 0x2384;
    assert Rounds(0x308F, 6) == 0x11C2;
    assert Rounds(0x308F, 7) == 0x08E1;
    assert Rounds(0x308F, 8) == 0xA471;
    assert 0xA471 ^ (0x36 as bv16) == 0xA447;
    assert Rounds(0xA447, 1) == 0xF222;
    assert Rounds(0xA447, 2) == 0x7911;
    assert Rounds(0xA447, 3) == 0x9C89;
    assert Rounds(0xA447, 4) == 0xEE45;
    assert Rounds(0xA447, 5) == 0xD723;
    assert Rounds(0xA447, 6) == 0xCB90;
    assert Rounds(0xA447, 7) == 0x65C8;
    assert Rounds(0xA447, 8) == 0x32E4;
  }

  /** Helper: bytes 7 to 9 of the check string, round by round. */
  lemma CheckValueSteps7to9()
    ensures Step(0x32E4, 0x37) == 0x9D73
    ensures Step(0x9D73, 0x38) == 0x37DD
    ensures Step(0x37DD, 0x39) == 0x4B37
  {
    assert 0x32E4 ^ (0x37 as bv16) == 0x32D3;
    assert Rounds(0x32D3, 1) == 0xB968;
    assert Rounds(0x32D3, 2) == 0x5CB4;
    assert Rounds(0x32D3, 3) == 0x2E5A;
    assert Rounds(0x32D3, 4) == 0x172D;
    assert Rounds(0x32D3, 5) == 0xAB97;
    assert Rounds(0x32D3, 6) == 0xF5CA;
    assert Rounds(0x32D3, 7) == 0x7AE5;
    assert Rounds(0x32D3, 8) == 0x9D73;
    assert 0x9D73 ^ (0x38 as bv16) == 0x9D4B;
    assert Rounds(0x9D4B, 1) == 0xEEA4;
    assert Rounds(0x9D4B, 2) == 0x7752;
    assert Rounds(0x9D4B, 3) == 0x3BA9;
    assert Rounds(0x9D4B, 4) == 0xBDD5;
    assert Rounds(0x9D4B, 5) == 0xFEEB;
    assert Rounds(0x9D4B, 6) == 0xDF74;
    assert Rounds(0x9D4B, 7) == 0x6FBA;
    assert Rounds(0x9D4B, 8) == 0x37DD;
    assert 0x37DD ^ (0x39 as bv16) == 0x37E4;
    assert Rounds(0x37E4, 1) == 0x1BF2;
    assert Rounds(0x37E4, 2) == 0x0DF9;
    assert Rounds(0x37E4, 3) == 0xA6FD;
    assert Rounds(0x37E4, 4) == 0xF37F;
    assert Rounds(0x37E4, 5) == 0xD9BE;
    assert Rounds(0x37E4, 6) == 0x6CDF;
    assert Rounds(0x37E4, 7) == 0x966E;
    assert Rounds(0x37E4, 8) == 0x4B37;
  }

  /** The CRC-16/MODBUS check value: ASCII "123456789" gives 0x4B37. */
  lemma CheckValue()
    ensures Crc16(AsciiBytes("123456789")) == 0x4B37
  {
    var d := AsciiBytes("123456789");
    assert d == [0x31, 0x32, 0x33, 0x34, 0x35, 0x36, 0x37, 0x38, 0x39];
    CheckValueSteps1to3();
    CheckValueSteps4to6();
    CheckValueSteps7to9();
    assert CrcFrom(0x4B37, d[9..]) == 0x4B37;
  }

  /** The source's `crc16`: the same register updated in place by a byte loop
      with an inner loop of eight bit rounds. */
  method ComputeCrc16(data: seq<byte>) returns (crc: nat)
    ensures crc < 0x10000
    ensures crc == Crc16(data)
  {
    var reg: bv16 := Init;
    var i := 0;
    while i < |data|
      invariant 0 <= i <= |data|
      invariant reg == CrcFrom(Init, data[..i])
    {
      var start := reg ^ (data[i] as bv16);
      reg := start;
      var k := 0;
      while k < 8
        invariant 0 <= k <= 8
        invariant reg == Rounds(start, k)
      {
        if reg & 1 == 1 {
          reg := (reg >> 1) ^ Poly;
        } else {
          reg := reg >> 1;
        }
        k := k + 1;
      }
      assert data[..i + 1] == data[..i] + [data[i]];
      CrcFromSnoc(Init, data[..i], data[i]);
      i := i + 1;
    }
    assert data[..i] == data;
    crc := reg as nat;
  }
}
