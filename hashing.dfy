/** The password digest rendering (Services/AlgoritamCryptography/Hashing.cs):
    the SHA-256 digest of the UTF-8 bytes of the key word, written as two
    lower-case hexadecimal digits per byte. The digest function itself
    (FIPS 180-4) and the UTF-8 encoding are not modelled; the caller passes
    the digest function in. */
module Hashing {

  newtype byte = x: int | 0 <= x < 256

  /** The lower-case hex digit of a nibble. */
  function HexDigit(n: int): (c: char)
    requires 0 <= n < 16
    ensures IsLowerHex(c)
  {
    if n < 10 then ('0' as int + n) as char else ('a' as int + n - 10) as char
  }

  predicate IsLowerHex(c: char) {
    '0' <= c <= '9' || 'a' <= c <= 'f'
  }

  /** The nibble a lower-case hex digit stands for. */
  function HexValue(c: char): (n: int)
    requires IsLowerHex(c)
    ensures 0 <= n < 16
  {
    if c <= '9' then c as int - '0' as int else c as int - 'a' as int + 10
  }

  lemma HexDigitRoundTrip(n: int)
    requires 0 <= n < 16
    ensures HexValue(HexDigit(n)) == n
  {
  }

  /** `b.ToString("x2")`: the high nibble, then the low nibble. */
  function ByteHex(b: byte): (s: string)
    ensures |s| == 2 && IsLowerHex(s[0]) && IsLowerHex(s[1])
  {
    [HexDigit(b as int / 16), HexDigit(b as int % 16)]
  }

  /** The hex text of a byte string. */
  function Hex(bytes: seq<byte>): (s: string)
    ensures |s| == 2 * |bytes|
  {
    if |bytes| == 0 then "" else Hex(bytes[..|bytes| - 1]) + ByteHex(bytes[|bytes| - 1])
  }

  /** Reads a hex text back into bytes, two digits per byte. */
  function Unhex(s: string): seq<byte>
    requires |s| % 2 == 0 && forall i :: 0 <= i < |s| ==> IsLowerHex(s[i])
  {
    if |s| == 0 then []
    else Unhex(s[..|s| - 2]) + [(HexValue(s[|s| - 2]) * 16 + HexValue(s[|s| - 1])) as byte]
  }

  /** Every character is in [0-9a-f]. */
  lemma {:induction false} HexDigits(bytes: seq<byte>)
    ensures forall i :: 0 <= i < |Hex(bytes)| ==> IsLowerHex(Hex(bytes)[i])
    decreases |bytes|
  {
    if |bytes| > 0 {
      var front := bytes[..|bytes| - 1];
      HexDigits(front);
      var s := Hex(bytes);
      assert s == Hex(front) + ByteHex(bytes[|bytes| - 1]);
      forall i | 0 <= i < |s| ensures IsLowerHex(s[i]) {
        if i < |s| - 2 {
          assert s[i] == Hex(front)[i];
        }
      }
    }
  }

  /** Pair `i` of the text encodes byte `i`. */
  lemma {:induction false} HexPairs(bytes: seq<byte>)
    ensures forall i :: 0 <= i < |bytes| ==> Hex(bytes)[2 * i..2 * i + 2] == ByteHex(bytes[i])
    decreases |bytes|
  {
    if |bytes| > 0 {
      var front := bytes[..|bytes| - 1];
      HexPairs(front);
      var s := Hex(bytes);
      assert s == Hex(front) + ByteHex(bytes[|bytes| - 1]);
      forall i | 0 <= i < |bytes| ensures s[2 * i..2 * i + 2] == ByteHex(bytes[i]) {
        if i < |bytes| - 1 {
          assert s[2 * i..2 * i + 2] == Hex(front)[2 * i..2 * i + 2];
        }
      }
    }
  }

  /** Reading back the two digits of one byte gives the byte. */
  lemma ByteHexRoundTrip(b: byte)
    ensures (HexValue(ByteHex(b)[0]) * 16 + HexValue(ByteHex(b)[1])) as byte == b
  {
    var hi := b as int / 16;
    var lo := b as int % 16;
    HexDigitRoundTrip(hi);
    HexDigitRoundTrip(lo);
    assert hi * 16 + lo == b as int;
  }

  /** `Unhex` inverts `Hex`, so the rendering loses nothing. */
  lemma {:induction false} UnhexHex(bytes: seq<byte>)
    ensures |Hex(bytes)| % 2 == 0
    ensures forall i :: 0 <= i < |Hex(bytes)| ==> IsLowerHex(Hex(bytes)[i])
    ensures Unhex(Hex(bytes)) == bytes
    decreases |bytes|
  {
    HexDigits(bytes);
    if |bytes| > 0 {
      var front := bytes[..|bytes| - 1];
      var b := bytes[|bytes| - 1];
      var s := Hex(bytes);
      assert s == Hex(front) + ByteHex(b);
      assert s[..|s| - 2] == Hex(front);
      assert s[|s| - 2] == ByteHex(b)[0] && s[|s| - 1] == ByteHex(b)[1];
      UnhexHex(front);
      ByteHexRoundTrip(b);
      assert bytes == front + [b];
    }
  }

  /** Equal texts come from equal digests. */
  lemma HexInjective(a: seq<byte>, b: seq<byte>)
    requires Hex(a) == Hex(b)
    ensures a == b
  {
    UnhexHex(a);
    UnhexHex(b);
  }

  /** `sha256(keyWord)`: the foreach over the digest bytes, appending each
      byte's two hex digits to a builder. */
  method Sha256(keyWord: string, digest: string -> seq<byte>) returns (s: string)
    ensures s == Hex(digest(keyWord))
  {
    var bytes := digest(keyWord);
    var builder := "";
    var k := 0;
    while k < |bytes|
      invariant 0 <= k <= |bytes|
      invariant builder == Hex(bytes[..k])
    {
      assert bytes[..k + 1][..k] == bytes[..k];
      builder := builder + ByteHex(bytes[k]);
      k := k + 1;
    }
    assert bytes[..|bytes|] == bytes;
    s := builder;
  }

  /** A 32-byte SHA-256 digest renders as 64 characters. */
  lemma DigestLength(bytes: seq<byte>)
    requires |bytes| == 32
    ensures |Hex(bytes)| == 64
  {
  }
}
