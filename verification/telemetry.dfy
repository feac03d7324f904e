/** The telemetry poller: the fixed MODBUS query, the acceptance test for a
    reply (two hexadecimal strings compared), the bounded retry loop and the
    decoding of an accepted reply into raw integer fields. */
module Telemetry {
  import opened Base
  import opened Text
  import opened Crc

  /** The fixed query written to the inverter: slave 0x7F, function 0x03
      (Read Holding Registers, section 6.3 of the MODBUS Application Protocol
      Specification V1.1b3), start register 0x7594, 0x0049 registers, and
      its CRC low byte first. */
  const Query: seq<byte> := [0x7F, 0x03, 0x75, 0x94, 0x00, 0x49, 0xD5, 0xC2]

  /** Number of query attempts before giving up. */
  const Tries: nat := 5

  /** Length of the reply to `Query`: the two-byte 0xAA 0x55 prefix, slave,
      function and byte count, 2 bytes per register, and the CRC. */
  const ReplyLength: nat := 153

  /** Helper: the CRC steps over the query's first six bytes, round by round. */
  lemma QuerySteps()
    ensures Step(0xFFFF, 0x7F) == 0xA0FE
    ensures Step(0xA0FE, 0x03) == 0x8161
    ensures Step(0x8161, 0x75) == 0x0F81
    ensures Step(0x0F81, 0x94) == 0xCFCE
    ensures Step(0xCFCE, 0x00) == 0x944E
    ensures Step(0x944E, 0x49) == 0xC2D5
  {
    assert 0xFFFF ^ (0x7F as bv16) == 0xFF80;
    assert Rounds(0xFF80, 1) == 0x7FC0;
    assert Rounds(0xFF80, 2) == 0x3FE0;
    assert Rounds(0xFF80, 3) == 0x1FF0;
    assert Rounds(0xFF80, 4) == 0x0FF8;
    assert Rounds(0xFF80, 5) == 0x07FC;
    assert Rounds(0xFF80, 6) == 0x03FE;
    assert Rounds(0xFF80, 7) == 0x01FF;
    assert Rounds(0xFF80, 8) == 0xA0FE;
    assert 0xA0FE ^ (0x03 as bv16) == 0xA0FD;
    assert Rounds(0xA0FD, 1) == 0xF07F;
    assert Rounds(0xA0FD, 2) == 0xD83E;
    assert Rounds(0xA0FD, 3) == 0x6C1F;
    assert Rounds(0xA0FD, 4) == 0x960E;
    assert Rounds(0xA0FD, 5) == 0x4B07;
    assert Rounds(0xA0FD, 6) == 0x8582;
    assert Rounds(0xA0FD, 7) == 0x42C1;
    assert Rounds(0xA0FD, 8) == 0x8161;
    assert 0x8161 ^ (0x75 as bv16) == 0x8114;
    assert Rounds(0x8114, 1) == 0x408A;
    assert Rounds(0x8114, 2) == 0x2045;
    assert Rounds(0x8114, 3) == 0xB023;
    assert Rounds(0x8114, 4) == 0xF810;
    assert Rounds(0x8114, 5) == 0x7C08;
    assert Rounds(0x8114, 6) == 0x3E04;
    assert Rounds(0x8114, 7) == 0x1F02;
    assert Rounds(0x8114, 8) == 0x0F81;
    assert 0x0F81 ^ (0x94 as bv16) == 0x0F15;
    assert Rounds(0x0F15, 1) == 0xA78B;
    assert Rounds(0x0F15, 2) == 0xF3C4;
    assert Rounds(0x0F15, 3) == 0x79E2;
    assert Rounds(0x0F15, 4) == 0x3CF1;
    assert Rounds(0x0F15, 5) == 0xBE79;
    assert Rounds(0x0F15, 6) == 0xFF3D;
    assert Rounds(0x0F15, 7) == 0xDF9F;
    assert Rounds(0x0F15, 8) == 0xCFCE;
    assert 0xCFCE ^ (0x00 as bv16) == 0xCFCE;
    assert Rounds(0xCFCE, 1) == 0x67E7;
    assert Rounds(0xCFCE, 2) == 0x93F2;
    assert Rounds(0xCFCE, 3) == 0x49F9;
    assert Rounds(0xCFCE, 4) == 0x84FD;
    assert Rounds(0xCFCE, 5) == 0xE27F;
    assert Rounds(0xCFCE, 6) == 0xD13E;
    assert Rounds(0xCFCE, 7) == 0x689F;
    assert Rounds(0xCFCE, 8) == 0x944E;
    assert 0x944E ^ (0x49 as bv16) == 0x9407;
    assert Rounds(0x9407, 1) == 0xEA02;
    assert Rounds(0x9407, 2) == 0x7501;
    assert Rounds(0x9407, 3) == 0x9A81;
    assert Rounds(0x9407, 4) == 0xED41;
    assert Rounds(0x9407, 5) == 0xD6A1;
    assert Rounds(0x9407, 6) == 0xCB51;
    assert Rounds(0x9407, 7) == 0xC5A9;
    assert Rounds(0x9407, 8) == 0xC2D5;
  }

  lemma QueryIsReadHoldingRegisters()
    ensures |Query| == 8 && Query[0] == 0x7F && Query[1] == 0x03
    ensures Query[2] as int * 256 + Query[3] == 0x7594 && Query[4] as int * 256 + Query[5] == 73
    ensures Crc16(Query[..6]) == Query[7] as int * 256 + Query[6]
  {
    var d := Query[..6];
    assert d == [0x7F, 0x03, 0x75, 0x94, 0x00, 0x49];
    QuerySteps();
    assert CrcFrom(0xC2D5, d[6..]) == 0xC2D5;
    assert CrcFrom(0xFFFF, d[0..]) == CrcFrom(0xA0FE, d[1..]);
    assert CrcFrom(0xA0FE, d[1..]) == CrcFrom(0x8161, d[2..]);
    assert CrcFrom(0x8161, d[2..]) == CrcFrom(0x0F81, d[3..]);
    assert CrcFrom(0x0F81, d[3..]) == CrcFrom(0xCFCE, d[4..]);
    assert CrcFrom(0xCFCE, d[4..]) == CrcFrom(0x944E, d[5..]);
    assert CrcFrom(0x944E, d[5..]) == CrcFrom(0xC2D5, d[6..]);
    assert d[0..] == d;
  }

  // ---------------------------------------------------------------------------
  // get_int

  /** What `get_int` may be handed: an int (an indexed byte) or a byte slice. */
  datatype IntOrBytes = Int(i: int) | Bytes(bs: seq<byte>)

  function Pow256(n: nat): (p: nat)
    ensures 1 <= p
  {
    if n == 0 then 1 else 256 * Pow256(n - 1)
  }

  /** `int.from_bytes(bs, 'big')`: unsigned, most significant byte first. */
  function BigEndian(bs: seq<byte>): (r: nat)
    ensures r < Pow256(|bs|)
    decreases |bs|
  {
    if |bs| == 0 then 0
    else
      var hi := BigEndian(bs[..|bs| - 1]);
      assert hi + 1 <= Pow256(|bs| - 1);
      assert hi * 256 + 256 <= Pow256(|bs| - 1) * 256;
      hi * 256 + bs[|bs| - 1]
  }

  /** The inverse direction: `n.to_bytes(w, 'big')`. */
  function ToBigEndian(n: nat, w: nat): (bs: seq<byte>)
    requires n < Pow256(w)
    ensures |bs| == w
    decreases w
  {
    if w == 0 then []
    else ToBigEndian(n / 256, w - 1) + [n % 256]
  }

  lemma {:induction false} BigEndianRoundTrip(n: nat, w: nat)
    requires n < Pow256(w)
    ensures BigEndian(ToBigEndian(n, w)) == n
    decreases w
  {
    if w > 0 {
      var bs := ToBigEndian(n, w);
      assert bs[..w - 1] == ToBigEndian(n / 256, w - 1);
      BigEndianRoundTrip(n / 256, w - 1);
    }
  }

  lemma {:induction false} ToBigEndianRoundTrip(bs: seq<byte>)
    ensures ToBigEndian(BigEndian(bs), |bs|) == bs
    decreases |bs|
  {
    if |bs| > 0 {
      var n := BigEndian(bs);
      var front := bs[..|bs| - 1];
      assert n / 256 == BigEndian(front) && n % 256 == bs[|bs| - 1];
      ToBigEndianRoundTrip(front);
      assert bs == front + [bs[|bs| - 1]];
    }
  }

  /** The source's `get_int`: an int comes back unchanged; bytes are read
      big-endian, and an empty slice reads as 0. */
  function GetInt(x: IntOrBytes): (r: int)
    ensures x.Int? ==> r == x.i
    ensures x.Bytes? ==> 0 <= r < Pow256(|x.bs|)
    ensures x == Bytes([]) ==> r == 0
  {
    match x
    case Int(i) => i
    case Bytes(bs) => BigEndian(bs)
  }

  // ---------------------------------------------------------------------------
  // Reply acceptance

  /** `bytes_data[-1:].hex() + bytes_data[-2:-1].hex()`: the last byte, then
      the one before it, each as two digits. */
  function CrcData(b: seq<byte>): (s: string)
    ensures forall i :: 0 <= i < |s| ==> IsHexDigit(s[i])
    ensures |b| >= 2 ==> s == HexByte(b[|b| - 1]) + HexByte(b[|b| - 2])
    ensures |b| < 2 ==> |s| == 2 * |b|
  {
    var hi, lo := PySlice(b, -1, |b|), PySlice(b, -2, -1);
    assert |b| >= 2 ==> hi == [b[|b| - 1]] && lo == [b[|b| - 2]];
    assert |b| == 1 ==> hi == b && lo == [];
    var s := HexBytes(hi) + HexBytes(lo);
    assert forall i :: |HexBytes(hi)| <= i < |s| ==> s[i] == HexBytes(lo)[i - |HexBytes(hi)|];
    s
  }

  /** `hex(crc16(bytes_data[2:-2]))[2:]`: the CRC of everything but the
      two-byte prefix and the two trailing bytes, without leading zeros. */
  function CrcCalc(b: seq<byte>): (s: string)
    ensures forall i :: 0 <= i < |s| ==> IsHexDigit(s[i])
    ensures HexValue(s) == Crc16(PySlice(b, 2, -2))
    ensures 1 < |s| ==> s[0] != '0'
  {
    HexUnpadded(Crc16(PySlice(b, 2, -2)))
  }

  /** The acceptance test of the retry loop, as written: the two strings are equal. */
  predicate ReplyAccepted(b: seq<byte>)
  {
    CrcData(b) == CrcCalc(b)
  }

  /** The intended test: the trailing two bytes, low byte first, hold the
      CRC-16/MODBUS of `b[2:-2]`. */
  predicate CrcMatches(b: seq<byte>)
  {
    |b| >= 2 && Crc16(PySlice(b, 2, -2)) == b[|b| - 1] as int * 256 + b[|b| - 2]
  }

  /** The acceptance test in arithmetic form; `ReplyAcceptedIff` shows it
      holds exactly when the two strings compare equal. */
  predicate Accepted(b: seq<byte>)
  {
    CrcMatches(b) && Crc16(PySlice(b, 2, -2)) >= 0x1000
  }

  /** A reply is accepted exactly when its trailing CRC matches AND that CRC
      is at least 0x1000: below that `hex()` drops leading zeros and the
      computed string is shorter than the four received digits. Replies of
      fewer than two bytes are never accepted. */
  lemma ReplyAcceptedIff(b: seq<byte>)
    ensures ReplyAccepted(b) <==> CrcMatches(b) && Crc16(PySlice(b, 2, -2)) >= 0x1000
    ensures |b| < 2 ==> !ReplyAccepted(b)
  {
    var n := |b|;
    var c := Crc16(PySlice(b, 2, -2));
    if n == 0 {
      assert CrcData(b) == [];
    } else if n == 1 {
      assert PySlice(b, 2, -2) == [];
      assert c == 0xFFFF;
      HexUnpaddedWide(c);
      assert |CrcData(b)| == 2;
    } else {
      assert PySlice(b, -1, n) == [b[n - 1]] && PySlice(b, -2, -1) == [b[n - 2]];
      assert HexBytes([b[n - 1]]) == HexByte(b[n - 1]);
      assert HexBytes([b[n - 2]]) == HexByte(b[n - 2]);
      assert CrcData(b) == HexByte(b[n - 1]) + HexByte(b[n - 2]);
      if c < 0x1000 {
        HexUnpaddedShort(c);
        assert |CrcCalc(b)| < 4;
      } else {
        HexUnpaddedWide(c);
        var hi, lo := c / 256, c % 256;
        if ReplyAccepted(b) {
          assert HexByte(hi) == HexByte(b[n - 1]) by {
            assert CrcCalc(b)[..2] == HexByte(hi) && CrcData(b)[..2] == HexByte(b[n - 1]);
          }
          assert HexByte(lo) == HexByte(b[n - 2]) by {
            assert CrcCalc(b)[2..] == HexByte(lo) && CrcData(b)[2..] == HexByte(b[n - 2]);
          }
          HexByteInjective(hi, b[n - 1]);
          HexByteInjective(lo, b[n - 2]);
        }
        if CrcMatches(b) {
          assert hi == b[n - 1] && lo == b[n - 2];
        }
      }
    }
  }

  /** Helper: the CRC steps over the rejected reply's payload, round by round. */
  lemma RejectedReplySteps()
    ensures Step(0xFFFF, 0x7F) == 0xA0FE
    ensures Step(0xA0FE, 0x03) == 0x8161
    ensures Step(0x8161, 0x04) == 0x2B41
    ensures Step(0x2B41, 0x18) == 0x3AEB
    ensures Step(0x3AEB, 0x05) == 0x4CBA
    ensures Step(0x4CBA, 0x01) == 0x730C
    ensures Step(0x730C, 0x00) == 0x0573
  {
    assert 0xFFFF ^ (0x7F as bv16) == 0xFF80;
    assert Rounds(0xFF80, 1) == 0x7FC0;
    assert Rounds(0xFF80, 2) == 0x3FE0;
    assert Rounds(0xFF80, 3) == 0x1FF0;
    assert Rounds(0xFF80, 4) == 0x0FF8;
    assert Rounds(0xFF80, 5) == 0x07FC;
    assert Rounds(0xFF80, 6) == 0x03FE;
    assert Rounds(0xFF80, 7) == 0x01FF;
    assert Rounds(0xFF80, 8) == 0xA0FE;
    assert 0xA0FE ^ (0x03 as bv16) == 0xA0FD;
    assert Rounds(0xA0FD, 1) == 0xF07F;
    assert Rounds(0xA0FD, 2) == 0xD83E;
    assert Rounds(0xA0FD, 3) == 0x6C1F;
    assert Rounds(0xA0FD, 4) == 0x960E;
    assert Rounds(0xA0FD, 5) == 0x4B07;
    assert Rounds(0xA0FD, 6) == 0x8582;
    assert Rounds(0xA0FD, 7) == 0x42C1;
    assert Rounds(0xA0FD, 8) == 0x8161;
    assert 0x8161 ^ (0x04 as bv16) == 0x8165;
    assert Rounds(0x8165, 1) == 0xE0B3;
    assert Rounds(0x8165, 2) == 0xD058;
    assert Rounds(0x8165, 3) == 0x682C;
    assert Rounds(0x8165, 4) == 0x3416;
    assert Rounds(0x8165, 5) == 0x1A0B;
    assert Rounds(0x8165, 6) == 0xAD04;
    assert Rounds(0x8165, 7) == 0x5682;
    assert Rounds(0x8165, 8) == 0x2B41;
    assert 0x2B41 ^ (0x18 as bv16) == 0x2B59;
    assert Rounds(0x2B59, 1) == 0xB5AD;
    assert Rounds(0x2B59, 2) == 0xFAD7;
    assert Rounds(0x2B59, 3) == 0xDD6A;
    assert Rounds(0x2B59, 4) == 0x6EB5;
    assert Rounds(0x2B59, 5) == 0x975B;
    assert Rounds(0x2B59, 6) == 0xEBAC;
    assert Rounds(0x2B59, 7) == 0x75D6;
    assert Rounds(0x2B59, 8) == 0x3AEB;
    assert 0x3AEB ^ (0x05 as bv16) == 0x3AEE;
    assert Rounds(0x3AEE, 1) == 0x1D77;
    assert Rounds(0x3AEE, 2) == 0xAEBA;
    assert Rounds(0x3AEE, 3) == 0x575D;
    assert Rounds(0x3AEE, 4) == 0x8BAF;
    assert Rounds(0x3AEE, 5) == 0xE5D6;
    assert Rounds(0x3AEE, 6) == 0x72EB;
    assert Rounds(0x3AEE, 7) == 0x9974;
    assert Rounds(0x3AEE, 8) == 0x4CBA;
    assert 0x4CBA ^ (0x01 as bv16) == 0x4CBB;
    assert Rounds(0x4CBB, 1) == 0x865C;
    assert Rounds(0x4CBB, 2) == 0x432E;
    assert Rounds(0x4CBB, 3) == 0x2197;
    assert Rounds(0x4CBB, 4) == 0xB0CA;
    assert Rounds(0x4CBB, 5) == 0x5865;
    assert Rounds(0x4CBB, 6) == 0x8C33;
    assert Rounds(0x4CBB, 7) == 0xE618;
    assert Rounds(0x4CBB, 8) == 0x730C;
    assert 0x730C ^ (0x00 as bv16) == 0x730C;
    assert Rounds(0x730C, 1) == 0x3986;
    assert Rounds(0x730C, 2) == 0x1CC3;
    assert Rounds(0x730C, 3) == 0xAE60;
    assert Rounds(0x730C, 4) == 0x5730;
    assert Rounds(0x730C, 5) == 0x2B98;
    assert Rounds(0x730C, 6) == 0x15CC;
    assert Rounds(0x730C, 7) == 0x0AE6;
    assert Rounds(0x730C, 8) == 0x0573;
  }

  /** A correct reply that the as-written test rejects: its CRC is 0x0573, so
      the received digits read "0573" while `hex()` yields "573". */
  lemma ShortHexRejectsValidReply()
    ensures var b: seq<byte> := [0xAA, 0x55, 0x7F, 0x03, 0x04, 0x18, 0x05, 0x01, 0x00, 0x73, 0x05];
      CrcMatches(b) && !ReplyAccepted(b)
  {
    var b: seq<byte> := [0xAA, 0x55, 0x7F, 0x03, 0x04, 0x18, 0x05, 0x01, 0x00, 0x73, 0x05];
    var d := PySlice(b, 2, -2);
    assert d == [0x7F, 0x03, 0x04, 0x18, 0x05, 0x01, 0x00];
    RejectedReplySteps();
    assert CrcFrom(0x0573, d[7..]) == 0x0573;
    assert CrcFrom(0xFFFF, d[0..]) == CrcFrom(0xA0FE, d[1..]);
    assert CrcFrom(0xA0FE, d[1..]) == CrcFrom(0x8161, d[2..]);
    assert CrcFrom(0x8161, d[2..]) == CrcFrom(0x2B41, d[3..]);
    assert CrcFrom(0x2B41, d[3..]) == CrcFrom(0x3AEB, d[4..]);
    assert CrcFrom(0x3AEB, d[4..]) == CrcFrom(0x4CBA, d[5..]);
    assert CrcFrom(0x4CBA, d[5..]) == CrcFrom(0x730C, d[6..]);
    assert CrcFrom(0x730C, d[6..]) == CrcFrom(0x0573, d[7..]);
    assert d[0..] == d;
    assert Crc16(d) == 0x0573;
    ReplyAcceptedIff(b);
  }

  // ---------------------------------------------------------------------------
  // Decoding

  /** `time.mktime`'s argument: (2000 + year byte, month, day, hour, minute, second). */
  datatype Timestamp = Timestamp(year: int, month: int, day: int, hour: int, minute: int, second: int)

  /** The decoded reply as raw integers: voltages, currents, temperature and
      energies in tenths, the frequency in hundredths (the scaling to floats
      is not part of this model). */
  datatype Sample = Sample(
    vpv1: int, ipv1: int, vpv2: int, ipv2: int,
    vac: int, iac: int, fac: int,
    eday: int, etot: int, rssi: int, hours: int,
    temp: int, power: int, status: int,
    timestamp: Timestamp)

  /** What `get_pv_stats` ends with: a sample, the `no data` marker, or the
      `IndexError` an accepted reply shorter than 11 bytes raises. */
  datatype PvStats = Stats(sample: Sample) | NoData | IndexError

  /** `get_int(bytes_data[lo:hi])`. */
  function Field(b: seq<byte>, lo: nat, hi: nat): int
  {
    GetInt(Bytes(PySlice(b, lo, hi)))
  }

  /** The decoding branch of `get_pv_stats`. Slices never fail; the indexed
      reads of bytes 5 to 10 need at least 11 bytes. */
  function Decode(b: seq<byte>): (r: PvStats)
    ensures r != NoData
    ensures r == IndexError <==> |b| < 11
  {
    if |b| < 11 then IndexError
    else
      Stats(Sample(
        vpv1 := Field(b, 11, 13),
        ipv1 := Field(b, 13, 15),
        vpv2 := Field(b, 15, 17),
        ipv2 := Field(b, 17, 19),
        vac := Field(b, 41, 43),
        iac := Field(b, 47, 49),
        fac := Field(b, 53, 55),
        eday := Field(b, 93, 95),
        etot := Field(b, 95, 99),
        rssi := Field(b, 149, 151),
        hours := Field(b, 101, 103),
        temp := Field(b, 87, 89),
        power := Field(b, 61, 63),
        status := Field(b, 63, 65),
        timestamp := Timestamp(
          2000 + GetInt(Int(b[5])), GetInt(Int(b[6])), GetInt(Int(b[7])),
          GetInt(Int(b[8])), GetInt(Int(b[9])), GetInt(Int(b[10])))))
  }

  /** The year lies in 2000..2255, and each field is bounded by its width:
      the four-byte energy counter below 2^32, the thirteen two-byte ones
      below 2^16. */
  lemma DecodeRanges(b: seq<byte>)
    requires Decode(b).Stats?
    ensures 2000 <= Decode(b).sample.timestamp.year < 2256
    ensures 0 <= Decode(b).sample.etot < 0x1_0000_0000
    ensures var s := Decode(b).sample;
      0 <= s.vpv1 < 0x10000 && 0 <= s.ipv1 < 0x10000 && 0 <= s.vpv2 < 0x10000 &&
      0 <= s.ipv2 < 0x10000 && 0 <= s.vac < 0x10000 && 0 <= s.iac < 0x10000 &&
      0 <= s.fac < 0x10000 && 0 <= s.eday < 0x10000 && 0 <= s.hours < 0x10000 &&
      0 <= s.temp < 0x10000 && 0 <= s.power < 0x10000 && 0 <= s.status < 0x10000 &&
      0 <= s.rssi < 0x10000
  {
    var s := Decode(b).sample;
    assert s.timestamp.year == 2000 + b[5] as int;
    assert s.etot == Field(b, 95, 99) && s.rssi == Field(b, 149, 151);
    assert s.vpv1 == Field(b, 11, 13) && s.ipv1 == Field(b, 13, 15);
    assert s.vpv2 == Field(b, 15, 17) && s.ipv2 == Field(b, 17, 19);
    assert s.vac == Field(b, 41, 43) && s.iac == Field(b, 47, 49);
    assert s.fac == Field(b, 53, 55) && s.eday == Field(b, 93, 95);
    assert s.hours == Field(b, 101, 103) && s.temp == Field(b, 87, 89);
    assert s.power == Field(b, 61, 63) && s.status == Field(b, 63, 65);
    assert Pow256(2) == 0x10000 && Pow256(4) == 0x1_0000_0000;
    FieldBound(b, 95, 99);
    FieldBound(b, 149, 151);
    FieldBound(b, 11, 13);
    FieldBound(b, 13, 15);
    FieldBound(b, 15, 17);
    FieldBound(b, 17, 19);
    FieldBound(b, 41, 43);
    FieldBound(b, 47, 49);
    FieldBound(b, 53, 55);
    FieldBound(b, 93, 95);
    FieldBound(b, 101, 103);
    FieldBound(b, 87, 89);
    FieldBound(b, 61, 63);
    FieldBound(b, 63, 65);
  }

  lemma {:induction false} Pow256Monotone(m: nat, k: nat)
    requires m <= k
    ensures Pow256(m) <= Pow256(k)
    decreases k
  {
    if m < k {
      Pow256Monotone(m, k - 1);
    }
  }

  /** A field read from `[lo, hi)` is below 256^(hi - lo), however short `b` is. */
  lemma FieldBound(b: seq<byte>, lo: nat, hi: nat)
    requires lo <= hi
    ensures 0 <= Field(b, lo, hi) < Pow256(hi - lo)
  {
    Pow256Monotone(|PySlice(b, lo, hi)|, hi - lo);
  }

  /** Each field of a full-length reply is the big-endian value of exactly
      its own byte range. */
  lemma DecodeFixedOffsets(b: seq<byte>)
    requires |b| >= 151
    ensures Decode(b).Stats?
    ensures var s := Decode(b).sample;
      s.vpv1 == BigEndian(b[11..13]) && s.ipv1 == BigEndian(b[13..15]) &&
      s.vpv2 == BigEndian(b[15..17]) && s.ipv2 == BigEndian(b[17..19]) &&
      s.vac == BigEndian(b[41..43]) && s.iac == BigEndian(b[47..49]) &&
      s.fac == BigEndian(b[53..55]) && s.eday == BigEndian(b[93..95]) &&
      s.etot == BigEndian(b[95..99]) && s.rssi == BigEndian(b[149..151]) &&
      s.hours == BigEndian(b[101..103]) && s.temp == BigEndian(b[87..89]) &&
      s.power == BigEndian(b[61..63]) && s.status == BigEndian(b[63..65]) &&
      s.timestamp == Timestamp(2000 + b[5] as int, b[6], b[7], b[8], b[9], b[10])
  {
  }

  /** A reply too short for a range reads the part that is there: a range
      wholly past the end decodes as 0. */
  lemma DecodeShortReply(b: seq<byte>)
    requires 11 <= |b| <= 149
    ensures Decode(b).Stats? && Decode(b).sample.rssi == 0
  {
  }

  // ---------------------------------------------------------------------------
  // Retry loop

  /** The bytes gathered in attempt `k`: the k-th candidate reply, or nothing
      when no byte arrived within that attempt's two-second window. */
  function ReplyAt(replies: seq<seq<byte>>, k: nat): seq<byte>
  {
    if k < |replies| then replies[k] else []
  }

  /** The first attempt from `k` on (among the `Tries` attempts) whose reply is accepted. */
  function FirstAccepted(replies: seq<seq<byte>>, k: nat): Option<nat>
    requires k <= Tries
    decreases Tries - k
  {
    if k == Tries then None
    else if Accepted(ReplyAt(replies, k)) then Some(k)
    else FirstAccepted(replies, k + 1)
  }

  /** When `FirstAccepted` finds an attempt, its reply is accepted and no
      reply before it (from `k` on) is. */
  lemma {:induction false} FirstAcceptedFound(replies: seq<seq<byte>>, k: nat)
    requires k <= Tries && FirstAccepted(replies, k).Some?
    ensures var i := FirstAccepted(replies, k).value;
      k <= i < Tries && Accepted(ReplyAt(replies, i)) &&
      forall j :: k <= j < i ==> !Accepted(ReplyAt(replies, j))
    decreases Tries - k
  {
    if !Accepted(ReplyAt(replies, k)) {
      assert FirstAccepted(replies, k) == FirstAccepted(replies, k + 1);
      FirstAcceptedFound(replies, k + 1);
    }
  }

  /** When `FirstAccepted` finds nothing, no remaining attempt is accepted. */
  lemma {:induction false} FirstAcceptedNone(replies: seq<seq<byte>>, k: nat)
    requires k <= Tries && FirstAccepted(replies, k).None?
    ensures forall j :: k <= j < Tries ==> !Accepted(ReplyAt(replies, j))
    decreases Tries - k
  {
    if k < Tries {
      FirstAcceptedNone(replies, k + 1);
    }
  }

  /** The check of one attempt: builds the two strings the loop condition
      compares (the trailing bytes as padded hex, high byte first, and the
      computed CRC as unpadded hex) and compares them. */
  method CheckReply(bytesData: seq<byte>) returns (accepted: bool)
    ensures accepted == Accepted(bytesData)
  {
    var crcData := CrcData(bytesData);
    var crc := ComputeCrc16(PySlice(bytesData, 2, -2));
    var crcCalc := HexUnpadded(crc);
    accepted := crcData == crcCalc;
    ReplyAcceptedIff(bytesData);
  }

  /** How many queries the retry loop sends: up to the first accepted attempt,
      or all of them. */
  function AttemptsUsed(replies: seq<seq<byte>>): nat
  {
    match FirstAccepted(replies, 0)
    case Some(i) => i + 1
    case None => Tries
  }

  /** What the retry loop yields: the decoding of the first accepted reply, or
      no data. */
  function Outcome(replies: seq<seq<byte>>): PvStats
  {
    match FirstAccepted(replies, 0)
    case Some(i) => Decode(ReplyAt(replies, i))
    case None => NoData
  }

  /** The query is sent at least once and at most `Tries` times; the outcome is
      no data exactly when no attempt's reply is accepted, and otherwise the
      decoding of the reply to the last query sent. */
  lemma RetryBounds(replies: seq<seq<byte>>)
    ensures 1 <= AttemptsUsed(replies) <= Tries
    ensures Outcome(replies) == NoData <==> forall j :: 0 <= j < Tries ==> !Accepted(ReplyAt(replies, j))
    ensures Outcome(replies) != NoData ==>
      Accepted(ReplyAt(replies, AttemptsUsed(replies) - 1)) &&
      Outcome(replies) == Decode(ReplyAt(replies, AttemptsUsed(replies) - 1))
  {
    if FirstAccepted(replies, 0).Some? {
      FirstAcceptedFound(replies, 0);
    } else {
      FirstAcceptedNone(replies, 0);
    }
  }

  lemma OutcomeOfFirst(replies: seq<seq<byte>>, i: nat, b: seq<byte>)
    requires FirstAccepted(replies, 0) == Some(i) && b == ReplyAt(replies, i)
    ensures Outcome(replies) == Decode(b) && AttemptsUsed(replies) == i + 1
  {
  }

  lemma OutcomeOfNone(replies: seq<seq<byte>>)
    requires FirstAccepted(replies, 0) == FirstAccepted(replies, Tries)
    ensures Outcome(replies) == NoData && AttemptsUsed(replies) == Tries
  {
  }

  /** One attempt of the retry loop: the first accepted attempt from `k` on is
      `k` itself when its reply is accepted, and otherwise lies further on. */
  lemma FirstAcceptedStep(replies: seq<seq<byte>>, k: nat, b: seq<byte>, accepted: bool)
    requires k < Tries
    requires b == ReplyAt(replies, k) && accepted == Accepted(b)
    ensures accepted ==> FirstAccepted(replies, k) == Some(k)
    ensures !accepted ==> FirstAccepted(replies, k) == FirstAccepted(replies, k + 1)
  {
  }

  /** The source's `get_pv_stats`, with the k-th element of `replies` standing
      for what the UART delivered after the k-th query. Returns the frames
      written to the UART and the outcome. */
  method GetPvStats(replies: seq<seq<byte>>) returns (writes: seq<seq<byte>>, result: PvStats)
    ensures |writes| == AttemptsUsed(replies)
    ensures forall k :: 0 <= k < |writes| ==> writes[k] == Query
    ensures result == Outcome(replies)
  {
    // The source seeds the two compared values with the distinct integers 1
    // and 2, so the first attempt always runs; `accepted` is the outcome of
    // the loop condition's string comparison.
    var accepted := false;
    var tries := Tries;
    var bytesData: seq<byte> := [];
    writes := [];
    while !accepted && tries > 0
      invariant 0 <= tries <= Tries
      invariant |writes| == Tries - tries
      invariant forall k :: 0 <= k < |writes| ==> writes[k] == Query
      invariant tries == Tries ==> !accepted
      invariant accepted ==>
        tries < Tries && bytesData == ReplyAt(replies, Tries - tries - 1) &&
        FirstAccepted(replies, 0) == Some(Tries - tries - 1)
      invariant !accepted ==> FirstAccepted(replies, 0) == FirstAccepted(replies, Tries - tries)
    {
      writes := writes + [Query];
      bytesData := ReplyAt(replies, Tries - tries);
      accepted := CheckReply(bytesData);
      FirstAcceptedStep(replies, Tries - tries, bytesData, accepted);
      tries := tries - 1;
    }
    if accepted {
      OutcomeOfFirst(replies, Tries - tries - 1, bytesData);
      result := Decode(bytesData);
    } else {
      result := NoData;
      OutcomeOfNone(replies);
    }
  }

  // ---------------------------------------------------------------------------
  // The inverter's side: a reply built from a sample

  /** A sample whose fields fit their byte widths. */
  predicate Encodable(s: Sample)
  {
    0 <= s.vpv1 < 0x10000 && 0 <= s.ipv1 < 0x10000 && 0 <= s.vpv2 < 0x10000 && 0 <= s.ipv2 < 0x10000 &&
    0 <= s.vac < 0x10000 && 0 <= s.iac < 0x10000 && 0 <= s.fac < 0x10000 &&
    0 <= s.eday < 0x10000 && 0 <= s.etot < 0x1_0000_0000 && 0 <= s.rssi < 0x10000 &&
    0 <= s.hours < 0x10000 && 0 <= s.temp < 0x10000 && 0 <= s.power < 0x10000 && 0 <= s.status < 0x10000 &&
    2000 <= s.timestamp.year < 2256 && 0 <= s.timestamp.month < 256 && 0 <= s.timestamp.day < 256 &&
    0 <= s.timestamp.hour < 256 && 0 <= s.timestamp.minute < 256 && 0 <= s.timestamp.second < 256
  }

  /** Byte `i` (0 or 1) of a 16-bit value, most significant first. */
  function WordByte(v: int, i: nat): byte
    requires 0 <= v < 0x10000
  {
    if i == 0 then v / 256 else v % 256
  }

  /** Byte `k` of the reply body for `s`: prefix, slave, function, byte count,
      then each field big-endian at its offset, zeros elsewhere. */
  function BodyByte(s: Sample, k: nat): byte
    requires Encodable(s)
  {
    if k == 0 then 0xAA
    else if k == 1 then 0x55
    else if k == 2 then 0x7F
    else if k == 3 then 0x03
    else if k == 4 then 146
    else if k == 5 then s.timestamp.year - 2000
    else if k == 6 then s.timestamp.month
    else if k == 7 then s.timestamp.day
    else if k == 8 then s.timestamp.hour
    else if k == 9 then s.timestamp.minute
    else if k == 10 then s.timestamp.second
    else if 11 <= k < 13 then WordByte(s.vpv1, k - 11)
    else if 13 <= k < 15 then WordByte(s.ipv1, k - 13)
    else if 15 <= k < 17 then WordByte(s.vpv2, k - 15)
    else if 17 <= k < 19 then WordByte(s.ipv2, k - 17)
    else if 41 <= k < 43 then WordByte(s.vac, k - 41)
    else if 47 <= k < 49 then WordByte(s.iac, k - 47)
    else if 53 <= k < 55 then WordByte(s.fac, k - 53)
    else if 61 <= k < 63 then WordByte(s.power, k - 61)
    else if 63 <= k < 65 then WordByte(s.status, k - 63)
    else if 87 <= k < 89 then WordByte(s.temp, k - 87)
    else if 93 <= k < 95 then WordByte(s.eday, k - 93)
    else if 101 <= k < 103 then WordByte(s.hours, k - 101)
    else if k == 95 then s.etot / 256 / 256 / 256
    else if k == 96 then s.etot / 256 / 256 % 256
    else if k == 97 then s.etot / 256 % 256
    else if k == 98 then s.etot % 256
    else if 149 <= k < 151 then WordByte(s.rssi, k - 149)
    else 0
  }

  /** The reply for `s` without its CRC: 151 bytes. */
  function Body(s: Sample): (body: seq<byte>)
    requires Encodable(s)
    ensures |body| == 151
    ensures forall k :: 0 <= k < 151 ==> body[k] == BodyByte(s, k)
  {
    seq(151, k requires 0 <= k < 151 => BodyByte(s, k))
  }

  /** The full reply for `s`: the body and the CRC-16/MODBUS of all of it
      but the two-byte prefix, low byte first. */
  function Encode(s: Sample): (b: seq<byte>)
    requires Encodable(s)
    ensures |b| == ReplyLength && b[..151] == Body(s)
  {
    var body := Body(s);
    var crc := Crc16(body[2..]);
    body + [crc % 256, crc / 256]
  }

  /** Helper: two bytes holding a 16-bit value big-endian read back as it. */
  lemma WordField(b: seq<byte>, lo: nat, v: int)
    requires lo + 2 <= |b| && 0 <= v < 0x10000
    requires b[lo] == v / 256 && b[lo + 1] == v % 256
    ensures Field(b, lo, lo + 2) == v
  {
    var w := b[lo..lo + 2];
    assert w == [v / 256, v % 256];
    assert w[..1] == [v / 256] && [v / 256][..0] == [];
    assert BigEndian(w) == v / 256 * 256 + v % 256;
  }

  /** Helper: four bytes holding a 32-bit value big-endian read back as it. */
  lemma DoubleWordField(b: seq<byte>, lo: nat, v: int)
    requires lo + 4 <= |b| && 0 <= v < 0x1_0000_0000
    requires b[lo] == v / 256 / 256 / 256 && b[lo + 1] == v / 256 / 256 % 256
    requires b[lo + 2] == v / 256 % 256 && b[lo + 3] == v % 256
    ensures Field(b, lo, lo + 4) == v
  {
    var w := b[lo..lo + 4];
    assert w[..3][..2][..1][..0] == [];
    assert w[..3][..2][..1] == w[..1] && w[..3][..2] == w[..2];
    assert BigEndian(w[..1]) == v / 256 / 256 / 256;
    assert BigEndian(w[..2]) == v / 256 / 256 / 256 * 256 + v / 256 / 256 % 256 == v / 256 / 256;
    assert BigEndian(w[..3]) == v / 256 / 256 * 256 + v / 256 % 256 == v / 256;
    assert BigEndian(w) == v / 256 * 256 + v % 256 == v;
  }

  /** Helper: the PV strings' voltages and currents of an encoded reply decode back. */
  lemma EncodedPvFields(s: Sample)
    requires Encodable(s)
    ensures Field(Body(s), 11, 13) == s.vpv1 &&
      Field(Body(s), 13, 15) == s.ipv1 &&
      Field(Body(s), 15, 17) == s.vpv2 &&
      Field(Body(s), 17, 19) == s.ipv2
  {
    WordField(Body(s), 11, s.vpv1);
    WordField(Body(s), 13, s.ipv1);
    WordField(Body(s), 15, s.vpv2);
    WordField(Body(s), 17, s.ipv2);
  }

  /** Helper: the AC side, power and status of an encoded reply decode back. */
  lemma EncodedAcFields(s: Sample)
    requires Encodable(s)
    ensures Field(Body(s), 41, 43) == s.vac &&
      Field(Body(s), 47, 49) == s.iac &&
      Field(Body(s), 53, 55) == s.fac &&
      Field(Body(s), 61, 63) == s.power &&
      Field(Body(s), 63, 65) == s.status
  {
    WordField(Body(s), 41, s.vac);
    WordField(Body(s), 47, s.iac);
    WordField(Body(s), 53, s.fac);
    WordField(Body(s), 61, s.power);
    WordField(Body(s), 63, s.status);
  }

  /** Helper: temperature, daily energy, hours and signal strength of an encoded reply decode back. */
  lemma EncodedCounterFields(s: Sample)
    requires Encodable(s)
    ensures Field(Body(s), 87, 89) == s.temp &&
      Field(Body(s), 93, 95) == s.eday &&
      Field(Body(s), 101, 103) == s.hours &&
      Field(Body(s), 149, 151) == s.rssi
  {
    WordField(Body(s), 87, s.temp);
    WordField(Body(s), 93, s.eday);
    WordField(Body(s), 101, s.hours);
    WordField(Body(s), 149, s.rssi);
  }

  /** Every encoded reply carries a matching CRC and decodes back to its sample. */
  lemma EncodeDecode(s: Sample)
    requires Encodable(s)
    ensures CrcMatches(Encode(s))
    ensures Decode(Encode(s)) == Stats(s)
  {
    var b := Encode(s);
    var body := Body(s);
    assert PySlice(b, 2, -2) == body[2..];
    forall lo, hi | 0 <= lo <= hi <= 151
      ensures Field(b, lo, hi) == Field(body, lo, hi)
    {
      assert b[lo..hi] == body[lo..hi];
    }
    EncodedPvFields(s);
    EncodedAcFields(s);
    EncodedCounterFields(s);
    DoubleWordField(Body(s), 95, s.etot);
  }
}
