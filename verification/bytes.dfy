/**
  Byte-level helpers of the advertisement parser: Python slicing, unsigned
  and two's-complement integers, the lower-case hex rendering of bleson's
  `hex_string`, Python's `int(s, 16)`, and the colon-separated MAC display.
 */
module Bytes {
  import opened Options

  /** One element of a Python `bytes` value. */
  type byte = x: int | 0 <= x < 256

  function Pow2(k: nat): (r: nat)
    ensures r >= 1
  {
    if k == 0 then 1 else 2 * Pow2(k - 1)
  }

  function Pow256(k: nat): (r: nat)
    ensures r >= 1
  {
    if k == 0 then 1 else 256 * Pow256(k - 1)
  }

  /**
    Python's `s[lo:hi]` for non-negative bounds: both bounds are clamped to
    the sequence and a bound pair out of order yields the empty slice, so
    slicing never fails.
   */
  function Slice<T>(s: seq<T>, lo: nat, hi: nat): (r: seq<T>)
    ensures |r| == if hi <= lo || |s| <= lo then 0 else (if hi < |s| then hi else |s|) - lo
    ensures forall i :: 0 <= i < |r| ==> r[i] == s[lo + i]
  {
    if hi <= lo || |s| <= lo then []
    else if hi < |s| then s[lo..hi]
    else s[lo..]
  }

  /**
    `twos_complement(n, w)`: reinterprets the low `w` bits of `n` as a signed
    `w`-bit value; bit `w - 1` is read as `n & (1 << (w - 1))` reads it.
   */
  function TwosComplement(n: nat, w: nat): (r: int)
    requires 1 <= w
    ensures n < Pow2(w) ==> -(Pow2(w - 1) as int) <= r < Pow2(w - 1)
    ensures n < Pow2(w) ==> (r == n <==> n < Pow2(w - 1))
    ensures n < Pow2(w) ==> (r == n || r == n - Pow2(w))
  {
    var half := Pow2(w - 1);
    TopBit(n, half);
    if (n / half) % 2 == 1 then n - Pow2(w) else n
  }

  /** Below `2 * half`, the bit of weight `half` is set exactly from `half` upwards. */
  lemma TopBit(n: nat, half: nat)
    requires half >= 1
    ensures n < 2 * half ==> ((n / half) % 2 == 1 <==> n >= half)
  {
    if n < half {
      assert n / half == 0;
    } else if n < 2 * half {
      assert n == half * (n / half) + n % half;
      assert n / half == 1;
    }
  }

  /** `int.from_bytes(bs, byteorder="little", signed=False)`. */
  function LittleEndianToUnsigned(bs: seq<byte>): (n: nat)
    ensures n < Pow256(|bs|)
  {
    if |bs| == 0 then 0 else bs[0] + 256 * LittleEndianToUnsigned(bs[1..])
  }

  lemma LittleEndianWord(bs: seq<byte>)
    requires |bs| == 2
    ensures LittleEndianToUnsigned(bs) == Word16(bs[0], bs[1])
  {
    assert bs[1..][1..] == [];
  }

  /** The `len`-byte little-endian encoding of `n` (its low `len` bytes). */
  function UnsignedToLittleEndian(n: nat, len: nat): (bs: seq<byte>)
    ensures |bs| == len
  {
    if len == 0 then [] else [n % 256] + UnsignedToLittleEndian(n / 256, len - 1)
  }

  lemma {:induction false} LittleEndianRoundTrip(bs: seq<byte>)
    ensures UnsignedToLittleEndian(LittleEndianToUnsigned(bs), |bs|) == bs
  {
    if |bs| > 0 {
      var rest := LittleEndianToUnsigned(bs[1..]);
      var n := bs[0] + 256 * rest;
      assert n % 256 == bs[0] && n / 256 == rest;
      LittleEndianRoundTrip(bs[1..]);
    }
  }

  lemma {:induction false} UnsignedLittleEndianRoundTrip(n: nat, len: nat)
    requires n < Pow256(len)
    ensures LittleEndianToUnsigned(UnsignedToLittleEndian(n, len)) == n
  {
    if len > 0 {
      assert n / 256 < Pow256(len - 1);
      UnsignedLittleEndianRoundTrip(n / 256, len - 1);
      var bs := UnsignedToLittleEndian(n, len);
      assert bs[1..] == UnsignedToLittleEndian(n / 256, len - 1);
    }
  }

  /** A little-endian 16-bit word. */
  function Word16(lo: byte, hi: byte): (n: nat)
    ensures n < 65536
  {
    lo as int + 256 * (hi as int)
  }

  /** Big-endian unsigned value of a byte string. */
  function BigEndianToUnsigned(bs: seq<byte>): (n: nat)
    ensures n < Pow256(|bs|)
  {
    if |bs| == 0 then 0
    else 256 * BigEndianToUnsigned(bs[..|bs| - 1]) + bs[|bs| - 1]
  }

  const HexDigits: string := "0123456789abcdef"

  /** `format(b, "02x")`. */
  function HexPair(b: byte): (s: string)
    ensures |s| == 2
  {
    [HexDigits[b / 16], HexDigits[b % 16]]
  }

  /**
    bleson's `hex_string(bs)` with its separating spaces removed, as every
    caller does with `.replace(" ", "")`: two lower-case hex digits per byte.
   */
  function HexString(bs: seq<byte>): (s: string)
    ensures |s| == 2 * |bs|
  {
    if |bs| == 0 then "" else HexString(bs[..|bs| - 1]) + HexPair(bs[|bs| - 1])
  }

  lemma {:induction false} HexStringPairs(bs: seq<byte>)
    ensures forall i :: 0 <= i < |bs| ==> HexString(bs)[2 * i..2 * i + 2] == HexPair(bs[i])
  {
    if |bs| > 0 {
      var init := bs[..|bs| - 1];
      HexStringPairs(init);
      var t := HexString(init);
      var s := HexString(bs);
      assert s == t + HexPair(bs[|bs| - 1]);
      forall i | 0 <= i < |bs|
        ensures s[2 * i..2 * i + 2] == HexPair(bs[i])
      {
        var j := 2 * i;
        if i < |bs| - 1 {
          assert j + 2 <= |t|;
          assert s[j..j + 2] == t[j..j + 2];
          assert bs[i] == init[i];
        } else {
          assert j == |t|;
          assert s[j..j + 2] == HexPair(bs[|bs| - 1]);
        }
      }
    }
  }

  predicate IsHexChar(c: char) {
    '0' <= c <= '9' || 'a' <= c <= 'f' || 'A' <= c <= 'F'
  }

  function HexValue(c: char): (v: nat)
    requires IsHexChar(c)
    ensures v < 16
  {
    if '0' <= c <= '9' then c as int - '0' as int
    else if 'a' <= c <= 'f' then c as int - 'a' as int + 10
    else c as int - 'A' as int + 10
  }

  /** Python's `int(s, 16)`; it raises on an empty or non-hex string, which is why both are required away. */
  function ParseHex(s: string): (n: nat)
    requires |s| > 0
    requires forall i :: 0 <= i < |s| ==> IsHexChar(s[i])
    ensures n < Pow2(4 * |s|)
  {
    var last := HexValue(s[|s| - 1]);
    if |s| == 1 then last
    else
      var high := ParseHex(s[..|s| - 1]);
      assert Pow2(4 * |s|) == 16 * Pow2(4 * (|s| - 1)) by {
        PowStep(4 * (|s| - 1));
      }
      16 * high + last
  }

  lemma PowStep(k: nat)
    ensures Pow2(k + 4) == 16 * Pow2(k)
  {
    assert Pow2(k + 4) == 2 * Pow2(k + 3) == 4 * Pow2(k + 2) == 8 * Pow2(k + 1);
  }

  lemma HexDigitValue(d: nat)
    requires d < 16
    ensures IsHexChar(HexDigits[d]) && HexValue(HexDigits[d]) == d
  {
  }

  /** Reading back the hex rendering of a byte string gives its big-endian value. */
  lemma {:induction false} ParseHexOfHexString(bs: seq<byte>)
    requires |bs| > 0
    ensures forall i :: 0 <= i < |HexString(bs)| ==> IsHexChar(HexString(bs)[i])
    ensures ParseHex(HexString(bs)) == BigEndianToUnsigned(bs)
  {
    var b := bs[|bs| - 1];
    var hi, lo := HexDigits[b / 16], HexDigits[b % 16];
    HexDigitValue(b / 16);
    HexDigitValue(b % 16);
    var init := bs[..|bs| - 1];
    var s := HexString(bs);
    if |init| == 0 {
      assert s == [hi, lo];
      ParseHexSnoc([hi], lo);
    } else {
      ParseHexOfHexString(init);
      var t := HexString(init);
      assert s == (t + [hi]) + [lo];
      ParseHexSnoc(t, hi);
      ParseHexSnoc(t + [hi], lo);
    }
  }

  /** Appending a hex digit multiplies the value read so far by 16 and adds the digit. */
  lemma ParseHexSnoc(t: string, c: char)
    requires |t| > 0 && IsHexChar(c)
    requires forall i :: 0 <= i < |t| ==> IsHexChar(t[i])
    ensures forall i :: 0 <= i < |t + [c]| ==> IsHexChar((t + [c])[i])
    ensures ParseHex(t + [c]) == 16 * ParseHex(t) + HexValue(c)
  {
    assert (t + [c])[..|t|] == t;
  }

  function UpperChar(c: char): char {
    if 'a' <= c <= 'z' then (c as int - 'a' as int + 'A' as int) as char else c
  }

  /** Python's `str.upper()` restricted to ASCII. */
  function ToUpper(s: string): (u: string)
    ensures |u| == |s|
    ensures forall i :: 0 <= i < |s| ==> u[i] == UpperChar(s[i])
  {
    seq(|s|, i requires 0 <= i < |s| => UpperChar(s[i]))
  }

  /** `":".join(parts)`. */
  function JoinColon(parts: seq<string>): string {
    if |parts| == 0 then ""
    else if |parts| == 1 then parts[0]
    else parts[0] + ":" + JoinColon(parts[1..])
  }

  lemma {:induction false} JoinColonLayout(parts: seq<string>)
    requires |parts| > 0
    requires forall i :: 0 <= i < |parts| ==> |parts[i]| == 2
    ensures |JoinColon(parts)| == 3 * |parts| - 1
    ensures forall i :: 0 <= i < |parts| ==> JoinColon(parts)[3 * i..3 * i + 2] == parts[i]
    ensures forall i :: 0 <= i < |parts| - 1 ==> JoinColon(parts)[3 * i + 2] == ':'
  {
    if |parts| > 1 {
      JoinColonLayout(parts[1..]);
      var j := JoinColon(parts);
      var rest := JoinColon(parts[1..]);
      assert j == parts[0] + ":" + rest;
      forall i | 0 <= i < |parts|
        ensures j[3 * i..3 * i + 2] == parts[i]
      {
        if i > 0 {
          assert j[3 * i..3 * i + 2] == rest[3 * (i - 1)..3 * (i - 1) + 2];
        }
      }
      forall i | 0 <= i < |parts| - 1
        ensures j[3 * i + 2] == ':'
      {
        if i > 0 {
          assert j[3 * i + 2] == rest[3 * (i - 1) + 2];
        }
      }
    }
  }

  function Reverse<T>(s: seq<T>): (r: seq<T>)
    ensures |r| == |s|
    ensures forall i :: 0 <= i < |s| ==> r[i] == s[|s| - 1 - i]
  {
    seq(|s|, i requires 0 <= i < |s| => s[|s| - 1 - i])
  }

  /**
    `reverse_mac`: the six address bytes of an advertising report, last byte
    first, as upper-case colon-separated hex pairs; anything but six bytes
    gives None.
   */
  function ReverseMac(macBytes: seq<byte>): (r: Option<string>)
    ensures r.None? <==> |macBytes| != 6
    ensures r.Some? ==> |r.value| == 17
    ensures r.Some? ==> forall i :: 0 <= i < 6 ==> r.value[3 * i..3 * i + 2] == ToUpper(HexPair(macBytes[5 - i]))
    ensures r.Some? ==> forall i :: 0 <= i < 5 ==> r.value[3 * i + 2] == ':'
  {
    if |macBytes| != 6 then None
    else
      MacLayout(macBytes);
      Some(ToUpper(JoinColon(MacOctets(macBytes))))
  }

  /** `[format(c, "02x") for c in reversed(mac_bytes)]`. */
  function MacOctets(macBytes: seq<byte>): (octets: seq<string>)
    ensures |octets| == |macBytes|
    ensures forall i :: 0 <= i < |macBytes| ==> octets[i] == HexPair(macBytes[|macBytes| - 1 - i])
  {
    var reversed := Reverse(macBytes);
    seq(|reversed|, i requires 0 <= i < |reversed| => HexPair(reversed[i]))
  }

  lemma MacLayout(macBytes: seq<byte>)
    requires |macBytes| == 6
    ensures |ToUpper(JoinColon(MacOctets(macBytes)))| == 17
    ensures forall i :: 0 <= i < 6 ==>
      ToUpper(JoinColon(MacOctets(macBytes)))[3 * i..3 * i + 2] == ToUpper(HexPair(macBytes[5 - i]))
    ensures forall i :: 0 <= i < 5 ==> ToUpper(JoinColon(MacOctets(macBytes)))[3 * i + 2] == ':'
  {
    var octets := MacOctets(macBytes);
    JoinColonLayout(octets);
    UpperKeepsLayout(JoinColon(octets), octets, macBytes);
  }

  /** Upper-casing a colon-joined rendering keeps its colons and upper-cases each octet. */
  lemma UpperKeepsLayout(joined: string, octets: seq<string>, macBytes: seq<byte>)
    requires |macBytes| == 6 && |octets| == 6 && |joined| == 17
    requires forall i :: 0 <= i < 6 ==> octets[i] == HexPair(macBytes[5 - i])
    requires forall i :: 0 <= i < 6 ==> joined[3 * i..3 * i + 2] == octets[i]
    requires forall i :: 0 <= i < 5 ==> joined[3 * i + 2] == ':'
    ensures forall i :: 0 <= i < 6 ==> ToUpper(joined)[3 * i..3 * i + 2] == ToUpper(HexPair(macBytes[5 - i]))
    ensures forall i :: 0 <= i < 5 ==> ToUpper(joined)[3 * i + 2] == ':'
  {
    var up := ToUpper(joined);
    forall i | 0 <= i < 6
      ensures up[3 * i..3 * i + 2] == ToUpper(HexPair(macBytes[5 - i]))
    {
      ToUpperSlice(joined, 3 * i, 3 * i + 2);
      assert joined[3 * i..3 * i + 2] == octets[i] == HexPair(macBytes[5 - i]);
    }
    forall i | 0 <= i < 5
      ensures up[3 * i + 2] == ':'
    {
      assert up[3 * i + 2] == UpperChar(':');
    }
  }

  lemma ToUpperSlice(s: string, lo: nat, hi: nat)
    requires lo <= hi <= |s|
    ensures ToUpper(s)[lo..hi] == ToUpper(s[lo..hi])
  {
  }

  lemma UpperHexPairInjective(x: byte, y: byte)
    requires ToUpper(HexPair(x)) == ToUpper(HexPair(y))
    ensures x == y
  {
    var p, q := ToUpper(HexPair(x)), ToUpper(HexPair(y));
    assert p[0] == q[0] && p[1] == q[1];
    assert x / 16 == y / 16 by {
      UpperHexDigitInjective(x / 16, y / 16);
    }
    assert x % 16 == y % 16 by {
      UpperHexDigitInjective(x % 16, y % 16);
    }
  }

  lemma UpperHexDigitInjective(d: nat, e: nat)
    requires d < 16 && e < 16
    requires UpperChar(HexDigits[d]) == UpperChar(HexDigits[e])
    ensures d == e
  {
  }

  /** Distinct address bytes never display as the same MAC string. */
  lemma ReverseMacInjective(a: seq<byte>, b: seq<byte>)
    requires ReverseMac(a).Some? && ReverseMac(a) == ReverseMac(b)
    ensures a == b
  {
    var m := ReverseMac(a).value;
    forall k | 0 <= k < 6
      ensures a[k] == b[k]
    {
      var i := 5 - k;
      assert m[3 * i..3 * i + 2] == ToUpper(HexPair(a[5 - i])) == ToUpper(HexPair(b[5 - i]));
      UpperHexPairInjective(a[k], b[k]);
    }
  }
}
