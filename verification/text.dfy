/** Rendering of numbers and bytes as the gateway's text replies and CRC
    comparison strings show them (Python's `str(n)`, `hex(n)[2:]`,
    `bytes.hex()` and `f'{b:#04x}'[2:]`). */
module Text {
  import opened Base

  /** The lowercase hexadecimal digit for `d`; decimal digits are its first ten. */
  function Digit(d: nat): (c: char)
    requires d < 16
    ensures d < 10 ==> '0' <= c <= '9'
    ensures 10 <= d ==> 'a' <= c <= 'f'
  {
    if d < 10 then (48 + d) as char else (87 + d) as char
  }

  predicate IsHexDigit(c: char)
  {
    '0' <= c <= '9' || 'a' <= c <= 'f'
  }

  /** Inverse of `Digit` on lowercase hexadecimal digits. */
  function DigitValue(c: char): (d: nat)
    requires IsHexDigit(c)
    ensures d < 16 && Digit(d) == c
  {
    if c <= '9' then c as int - 48 else c as int - 87
  }

  lemma DigitInjective(d: nat, e: nat)
    requires d < 16 && e < 16
    ensures Digit(d) == Digit(e) <==> d == e
  {
  }

  /** One byte as exactly two lowercase hexadecimal digits, zero padded. */
  function HexByte(b: byte): (s: string)
    ensures |s| == 2 && IsHexDigit(s[0]) && IsHexDigit(s[1])
  {
    [Digit(b / 16), Digit(b % 16)]
  }

  lemma HexByteInjective(a: byte, b: byte)
    ensures HexByte(a) == HexByte(b) <==> a == b
  {
    if HexByte(a) == HexByte(b) {
      assert Digit(a / 16) == Digit(b / 16) && Digit(a % 16) == Digit(b % 16);
      DigitInjective(a / 16, b / 16);
      DigitInjective(a % 16, b % 16);
    }
  }

  /** `bytes.hex()`: two lowercase digits per byte, no separators. */
  function HexBytes(bs: seq<byte>): (s: string)
    ensures |s| == 2 * |bs|
    ensures forall i :: 0 <= i < |s| ==> IsHexDigit(s[i])
    ensures forall i :: 0 <= i < |bs| ==> s[2 * i..2 * i + 2] == HexByte(bs[i])
  {
    if |bs| == 0 then []
    else
      var t := HexBytes(bs[1..]);
      assert forall i :: 1 <= i < |bs| ==> (HexByte(bs[0]) + t)[2 * i..2 * i + 2] == t[2 * (i - 1)..2 * (i - 1) + 2];
      HexByte(bs[0]) + t
  }

  /** Reads back a string of digit pairs, as `bytes.fromhex` does for lowercase input. */
  function UnhexBytes(s: string): (bs: seq<byte>)
    requires |s| % 2 == 0
    requires forall i :: 0 <= i < |s| ==> IsHexDigit(s[i])
    ensures 2 * |bs| == |s|
  {
    if |s| == 0 then []
    else [DigitValue(s[0]) * 16 + DigitValue(s[1])] + UnhexBytes(s[2..])
  }

  lemma {:induction false} UnhexHexBytes(bs: seq<byte>)
    ensures UnhexBytes(HexBytes(bs)) == bs
  {
    if |bs| > 0 {
      UnhexHexBytes(bs[1..]);
      var h := HexBytes(bs);
      assert h == HexByte(bs[0]) + HexBytes(bs[1..]);
      assert h[2..] == HexBytes(bs[1..]);
      assert DigitValue(h[0]) == bs[0] / 16 && DigitValue(h[1]) == bs[0] % 16 by {
        DigitInjective(DigitValue(h[0]), bs[0] / 16);
        DigitInjective(DigitValue(h[1]), bs[0] % 16);
      }
    }
  }

  lemma DigitRoundTrip(d: nat)
    requires d < 16
    ensures IsHexDigit(Digit(d)) && DigitValue(Digit(d)) == d
  {
    DigitInjective(DigitValue(Digit(d)), d);
  }

  /** Reads back a string of hexadecimal digits, most significant first. */
  function HexValue(s: string): (n: nat)
    requires forall i :: 0 <= i < |s| ==> IsHexDigit(s[i])
  {
    if |s| == 0 then 0 else HexValue(s[..|s| - 1]) * 16 + DigitValue(s[|s| - 1])
  }

  /** `hex(n)[2:]`: lowercase hexadecimal without leading zeros ("0" for
      zero). It reads back as `n`. */
  function HexUnpadded(n: nat): (s: string)
    ensures 1 <= |s|
    ensures forall i :: 0 <= i < |s| ==> IsHexDigit(s[i])
    ensures 1 < |s| ==> s[0] != '0'
    ensures HexValue(s) == n
    decreases n
  {
    if n < 16 then
      DigitRoundTrip(n);
      assert [Digit(n)][..0] == [];
      [Digit(n)]
    else
      var t := HexUnpadded(n / 16);
      DigitRoundTrip(n % 16);
      assert (t + [Digit(n % 16)])[..|t|] == t;
      t + [Digit(n % 16)]
  }

  /** Below 0x1000 the unpadded rendering has at most three digits. */
  lemma HexUnpaddedShort(n: nat)
    requires n < 0x1000
    ensures |HexUnpadded(n)| <= 3
  {
    if n >= 16 {
      assert n / 16 < 256;
      if n / 16 >= 16 {
        assert n / 16 / 16 < 16;
        assert HexUnpadded(n / 16) == HexUnpadded(n / 16 / 16) + [Digit(n / 16 % 16)];
      }
    }
  }

  /** From 0x1000 to 0xFFFF the unpadded rendering is the two bytes' padded
      renderings, high byte first. */
  lemma HexUnpaddedWide(n: nat)
    requires 0x1000 <= n < 0x10000
    ensures HexUnpadded(n) == HexByte(n / 256) + HexByte(n % 256)
  {
    assert n / 16 / 16 == n / 256 && n / 256 / 16 == n / 4096;
    assert n / 16 % 16 == n % 256 / 16 && n % 16 == n % 256 % 16;
    assert 16 <= n / 256 < 256 && 1 <= n / 4096 < 16;
    calc {
      HexUnpadded(n);
      HexUnpadded(n / 16) + [Digit(n % 16)];
      HexUnpadded(n / 256) + [Digit(n / 16 % 16)] + [Digit(n % 16)];
      [Digit(n / 4096)] + [Digit(n / 256 % 16)] + [Digit(n / 16 % 16)] + [Digit(n % 16)];
    }
  }

  /** `str(n)` for a non-negative integer. */
  function Decimal(n: nat): (s: string)
    ensures 1 <= |s|
    ensures forall i :: 0 <= i < |s| ==> '0' <= s[i] <= '9'
    decreases n
  {
    if n < 10 then [Digit(n)] else Decimal(n / 10) + [Digit(n % 10)]
  }

  /** Reads back a string of decimal digits. */
  function DecimalValue(s: string): (n: nat)
    requires forall i :: 0 <= i < |s| ==> '0' <= s[i] <= '9'
  {
    if |s| == 0 then 0 else DecimalValue(s[..|s| - 1]) * 10 + (s[|s| - 1] as int - 48)
  }

  lemma {:induction false} DecimalRoundTrip(n: nat)
    ensures DecimalValue(Decimal(n)) == n
    decreases n
  {
    if n >= 10 {
      DecimalRoundTrip(n / 10);
      var s := Decimal(n);
      assert s[..|s| - 1] == Decimal(n / 10);
    }
  }
}
