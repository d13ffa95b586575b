/**
 * The card-data codec of the emulation service: bytes rendered as two upper-case hex
 * digits each (String.format("%02X", b)) and parsed back two digits at a time.
 */
module HexCodec {
  import opened Common

  predicate IsHexDigit(c: char) {
    '0' <= c <= '9' || 'A' <= c <= 'F' || 'a' <= c <= 'f'
  }

  predicate IsUpperHexDigit(c: char) {
    '0' <= c <= '9' || 'A' <= c <= 'F'
  }

  /** Character.digit(c, 16) on a hex digit. */
  function DigitValue(c: char): (v: nat)
    requires IsHexDigit(c)
    ensures v < 16
  {
    if '0' <= c <= '9' then c as int - '0' as int
    else if 'A' <= c <= 'F' then c as int - 'A' as int + 10
    else c as int - 'a' as int + 10
  }

  /** The upper-case digit for a nibble. */
  function UpperDigit(v: nat): (c: char)
    requires v < 16
    ensures IsUpperHexDigit(c) && IsHexDigit(c)
    ensures DigitValue(c) == v
  {
    if v < 10 then ('0' as int + v) as char else ('A' as int + v - 10) as char
  }

  /** The upper-case spelling of a hex digit. */
  function UpperOf(c: char): (u: char)
    requires IsHexDigit(c)
    ensures IsUpperHexDigit(u) && DigitValue(u) == DigitValue(c)
  {
    UpperDigit(DigitValue(c))
  }

  /** What hexToBytes accepts: an even number of hex digits. */
  predicate IsHexString(s: string) {
    |s| % 2 == 0 && forall i :: 0 <= i < |s| ==> IsHexDigit(s[i])
  }

  function ByteToHex(b: byte): (s: string)
    ensures |s| == 2 && IsUpperHexDigit(s[0]) && IsUpperHexDigit(s[1])
    ensures IsHexDigit(s[0]) && IsHexDigit(s[1])
    ensures PairValue(s[0], s[1]) == b as int
  {
    [UpperDigit(b as int / 16), UpperDigit(b as int % 16)]
  }

  /** bytesToHex: every byte becomes two upper-case digits, most significant nibble first. */
  function BytesToHex(bytes: seq<byte>): (s: string)
    ensures |s| == 2 * |bytes|
    ensures forall i :: 0 <= i < |s| ==> IsUpperHexDigit(s[i])
    ensures IsHexString(s)
    ensures forall i :: 0 <= i < |bytes| ==> s[2 * i..2 * i + 2] == ByteToHex(bytes[i])
  {
    if |bytes| == 0 then ""
    else
      var rest := BytesToHex(bytes[1..]);
      var s := ByteToHex(bytes[0]) + rest;
      assert forall i :: 1 <= i < |bytes| ==> s[2 * i..2 * i + 2] == rest[2 * (i - 1)..2 * (i - 1) + 2];
      s
  }

  /** The byte two hex digits spell, high nibble first. */
  function PairValue(hi: char, lo: char): (v: nat)
    requires IsHexDigit(hi) && IsHexDigit(lo)
    ensures v < 256
  {
    DigitValue(hi) * 16 + DigitValue(lo)
  }

  /** hexToBytes: byte i is the value of digits 2i (high nibble) and 2i+1 (low nibble). */
  function HexToBytes(s: string): (bytes: seq<byte>)
    requires IsHexString(s)
    ensures 2 * |bytes| == |s|
    ensures forall i :: 0 <= i < |bytes| ==> bytes[i] as int == PairValue(s[2 * i], s[2 * i + 1])
    decreases |s|
  {
    if |s| == 0 then []
    else
      var rest := HexToBytes(s[2..]);
      assert forall i :: 0 <= i < |rest| ==> rest[i] as int == PairValue(s[2 * i + 2], s[2 * i + 3]);
      [PairValue(s[0], s[1]) as byte] + rest
  }

  /** Decoding undoes encoding, for every byte buffer. */
  lemma {:induction false} HexRoundTrip(bytes: seq<byte>)
    ensures HexToBytes(BytesToHex(bytes)) == bytes
  {
    var r := HexToBytes(BytesToHex(bytes));
    forall i | 0 <= i < |bytes|
      ensures r[i] == bytes[i]
    {
      var s := BytesToHex(bytes);
      assert s[2 * i..2 * i + 2] == ByteToHex(bytes[i]);
      assert s[2 * i] == ByteToHex(bytes[i])[0] && s[2 * i + 1] == ByteToHex(bytes[i])[1];
    }
  }

  /** The upper-case spelling of a hex string. */
  function ToUpperHex(s: string): (u: string)
    requires forall i :: 0 <= i < |s| ==> IsHexDigit(s[i])
    ensures |u| == |s|
    ensures forall i :: 0 <= i < |s| ==> u[i] == UpperOf(s[i])
  {
    if |s| == 0 then "" else [UpperOf(s[0])] + ToUpperHex(s[1..])
  }

  /** Encoding a decoded string normalises the case of its digits and changes nothing else. */
  lemma {:induction false} HexNormalizesCase(s: string)
    requires IsHexString(s)
    ensures BytesToHex(HexToBytes(s)) == ToUpperHex(s)
  {
    var bytes := HexToBytes(s);
    var t := BytesToHex(bytes);
    var u := ToUpperHex(s);
    forall i | 0 <= i < |bytes|
      ensures t[2 * i] == u[2 * i] && t[2 * i + 1] == u[2 * i + 1]
    {
      var h := t[2 * i..2 * i + 2];
      assert h == ByteToHex(bytes[i]);
      assert t[2 * i] == h[0] && t[2 * i + 1] == h[1];
      PairSpelling(s[2 * i], s[2 * i + 1], bytes[i]);
    }
    forall k | 0 <= k < |t|
      ensures t[k] == u[k]
    {
      if k % 2 == 0 {
        assert k == 2 * (k / 2);
      } else {
        assert k == 2 * (k / 2) + 1;
      }
    }
  }

  /** The canonical spelling of the byte two digits spell is those digits in upper case. */
  lemma PairSpelling(hi: char, lo: char, b: byte)
    requires IsHexDigit(hi) && IsHexDigit(lo) && b as int == PairValue(hi, lo)
    ensures ByteToHex(b) == [UpperOf(hi), UpperOf(lo)]
  {
    NibbleSplit(DigitValue(hi), DigitValue(lo));
  }

  /** A byte's two nibbles are recovered by division and remainder by 16. */
  lemma NibbleSplit(h: nat, l: nat)
    requires h < 16 && l < 16
    ensures (h * 16 + l) / 16 == h && (h * 16 + l) % 16 == l
  {
  }
}
