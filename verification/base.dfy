/** Shared vocabulary: bytes, optional values and Python's slice semantics. */
module Base {

  /** A byte as Python's `bytes`/`bytearray` hands it out: an int in 0..255. */
  type byte = x: int | 0 <= x < 256

  datatype Option<+T> = None | Some(value: T)

  /** Normalises a Python slice bound against a sequence of length `n`:
      a negative bound counts from the end, and the result is clamped to 0..n. */
  function SliceBound(i: int, n: nat): (k: nat)
    ensures k <= n
    ensures 0 <= i <= n ==> k == i
    ensures i < 0 && -i <= n ==> k == n + i
    ensures i > n ==> k == n
    ensures i < 0 && -i > n ==> k == 0
  {
    if i < 0 then (if i + n < 0 then 0 else i + n)
    else if i > n then n
    else i
  }

  /** Python's `s[lo:hi]` with step 1: never fails, clamps at both ends, and
      is empty when the normalised bounds cross. */
  function PySlice<T>(s: seq<T>, lo: int, hi: int): (r: seq<T>)
    ensures |r| <= |s|
    ensures 0 <= lo <= hi <= |s| ==> r == s[lo..hi]
    ensures |s| <= lo ==> r == []
  {
    var a, b := SliceBound(lo, |s|), SliceBound(hi, |s|);
    if a < b then s[a..b] else []
  }

  predicate IsAscii(bs: seq<byte>)
  {
    forall i :: 0 <= i < |bs| ==> bs[i] < 128
  }

  /** `bytes.decode('utf-8')` restricted to ASCII input, where it maps each
      byte to the character with the same code. */
  function AsciiDecode(bs: seq<byte>): (s: string)
    requires IsAscii(bs)
    ensures |s| == |bs|
    ensures forall i :: 0 <= i < |bs| ==> s[i] as int == bs[i]
  {
    seq(|bs|, i requires 0 <= i < |bs| => bs[i] as char)
  }

  predicate IsAsciiText(s: string)
  {
    forall i :: 0 <= i < |s| ==> s[i] as int < 128
  }

  lemma AsciiTextAppend(a: string, b: string)
    requires IsAsciiText(a) && IsAsciiText(b)
    ensures IsAsciiText(a + b)
  {
    assert forall i :: |a| <= i < |a + b| ==> (a + b)[i] == b[i - |a|];
  }

  /** The bytes of an ASCII string literal, as the source's `b'...'` literals. */
  function AsciiBytes(s: string): (bs: seq<byte>)
    requires IsAsciiText(s)
    ensures |bs| == |s| && IsAscii(bs)
    ensures forall i :: 0 <= i < |s| ==> bs[i] == s[i] as int
  {
    seq(|s|, i requires 0 <= i < |s| => s[i] as int)
  }
}
