/** Byte strings and the conversions the pipeline applies to them:
    int.to_bytes / int.from_bytes, format(b, '08b'), bytes.hex,
    bytes.fromhex and str.encode('utf-8'). */
module Encoding {
  import opened Wrappers
  import opened Bits

  newtype byte = x: int | 0 <= x < 256

  function Pow256(k: nat): (r: nat)
    ensures r == Pow2(8 * k)
  {
    if k == 0 then 1
    else
      Pow2Add(8 * (k - 1), 8);
      256 * Pow256(k - 1)
  }

  /** int.from_bytes(bs, 'big'). */
  function BytesToNat(bs: seq<byte>): (v: nat)
    ensures v < Pow256(|bs|)
  {
    if bs == [] then 0 else 256 * BytesToNat(bs[..|bs| - 1]) + bs[|bs| - 1] as nat
  }

  /** n.to_bytes(k, byteorder='big'); Python raises OverflowError unless n fits in k bytes. */
  function ToBytesBE(n: nat, k: nat): (bs: seq<byte>)
    requires n < Pow256(k)
    ensures |bs| == k && BytesToNat(bs) == n
  {
    if k == 0 then []
    else
      var bs := ToBytesBE(n / 256, k - 1) + [(n % 256) as byte];
      assert bs[..k - 1] == ToBytesBE(n / 256, k - 1);
      bs
  }

  /** The other direction: re-packing the value of k bytes into k bytes gives them back. */
  lemma {:induction false} ToBytesOfBytesToNat(bs: seq<byte>)
    ensures ToBytesBE(BytesToNat(bs), |bs|) == bs
  {
    if bs != [] {
      var p := bs[..|bs| - 1];
      ToBytesOfBytesToNat(p);
      var v := BytesToNat(bs);
      assert v / 256 == BytesToNat(p) && v % 256 == bs[|bs| - 1] as nat;
      assert bs == p + [bs[|bs| - 1]];
    }
  }

  /** format(b, '08b'): the byte as eight bits, most significant first
      (ByteBitsIsFormat shows this is bin(b)[2:] zero-filled to 8). */
  function ByteBits(b: byte): (s: string)
    ensures |s| == 8 && IsBinary(s) && BinToNat(s) == b as nat
  {
    NatToBits(b as nat, 8)
  }

  lemma ByteBitsIsFormat(b: byte)
    ensures ByteBits(b) == ZFill(Bin(b as nat), 8)
  {
    ZFillBin(b as nat, 8);
  }

  /** The digest's bit string in __generate_checksum: each byte as eight binary digits, most significant first, concatenated. */
  function BytesToBits(bs: seq<byte>): (s: string)
    ensures |s| == 8 * |bs|
  {
    if bs == [] then [] else ByteBits(bs[0]) + BytesToBits(bs[1..])
  }

  lemma {:induction false} BytesToBitsBinary(bs: seq<byte>)
    ensures IsBinary(BytesToBits(bs))
  {
    if bs != [] {
      BytesToBitsBinary(bs[1..]);
      var head, tail := ByteBits(bs[0]), BytesToBits(bs[1..]);
      forall i | 0 <= i < |head + tail| ensures (head + tail)[i] == '0' || (head + tail)[i] == '1' {
        if i >= |head| { assert (head + tail)[i] == tail[i - |head|]; }
      }
    }
  }

  lemma BytesToNatSnoc(bs: seq<byte>, b: byte)
    ensures BytesToNat(bs + [b]) == 256 * BytesToNat(bs) + b as nat
  {
    assert (bs + [b])[..|bs|] == bs;
  }

  lemma ShiftByte(x: nat, k: nat)
    ensures x * Pow256(k + 1) == 256 * (x * Pow256(k))
  {
  }

  lemma {:induction false} BytesToNatCons(b: byte, bs: seq<byte>)
    ensures BytesToNat([b] + bs) == b as nat * Pow256(|bs|) + BytesToNat(bs)
  {
    if bs == [] {
      assert [b] + bs == [b];
      BytesToNatSnoc([], b);
    } else {
      var p, c := bs[..|bs| - 1], bs[|bs| - 1];
      var x, q, y := b as nat, Pow256(|p|), BytesToNat(p);
      assert BytesToNat([b] + bs) == 256 * BytesToNat([b] + p) + c as nat by {
        assert [b] + bs == ([b] + p) + [c];
        BytesToNatSnoc([b] + p, c);
      }
      assert BytesToNat(bs) == 256 * y + c as nat by {
        assert bs == p + [c];
        BytesToNatSnoc(p, c);
      }
      assert BytesToNat([b] + p) == x * q + y by {
        BytesToNatCons(b, p);
      }
      assert x * Pow256(|bs|) == 256 * (x * q) by {
        ShiftByte(x, |p|);
      }
    }
  }

  /** The digest string read as one binary number is the digest read as one big-endian number. */
  lemma {:induction false} BytesToBitsValue(bs: seq<byte>)
    ensures BinToNat(BytesToBits(bs)) == BytesToNat(bs)
  {
    if bs != [] {
      var b, rest := bs[0], bs[1..];
      var head, tail := ByteBits(b), BytesToBits(rest);
      assert BinToNat(BytesToBits(bs)) == b as nat * Pow2(|tail|) + BinToNat(tail) by {
        BinToNatAppend(head, tail);
      }
      assert BinToNat(tail) == BytesToNat(rest) by {
        BytesToBitsValue(rest);
      }
      assert BytesToNat(bs) == b as nat * Pow256(|rest|) + BytesToNat(rest) by {
        BytesToNatCons(b, rest);
        assert [b] + rest == bs;
      }
      assert Pow2(|tail|) == Pow256(|rest|);
    }
  }

  lemma SliceOfAppend(a: string, b: string, i: nat, n: nat)
    requires |a| <= i && i + n <= |a| + |b|
    ensures (a + b)[i..i + n] == b[i - |a|..i - |a| + n]
  {
  }

  /** Bits [8i, 8i+8) of the digest string are byte i, formatted with '08b'. */
  lemma {:induction false} BytesToBitsAt(bs: seq<byte>, i: nat)
    requires i < |bs|
    ensures BytesToBits(bs)[8 * i..8 * i + 8] == ByteBits(bs[i])
  {
    var head, tail := ByteBits(bs[0]), BytesToBits(bs[1..]);
    assert BytesToBits(bs) == head + tail;
    if i > 0 {
      assert tail[8 * (i - 1)..8 * (i - 1) + 8] == ByteBits(bs[i]) by {
        BytesToBitsAt(bs[1..], i - 1);
        assert bs[1..][i - 1] == bs[i];
      }
      assert (head + tail)[8 * i..8 * i + 8] == tail[8 * (i - 1)..8 * (i - 1) + 8] by {
        SliceOfAppend(head, tail, 8 * i, 8);
      }
    } else {
      assert BytesToBits(bs)[..8] == head by {
        assert (head + tail)[..8] == head;
      }
    }
  }

  /** Hexadecimal text. */

  /** The lower-case hex digit of a nibble. */
  function HexDigit(d: nat): (c: char)
    requires d < 16
  {
    if d < 10 then ('0' as int + d) as char else ('a' as int + d - 10) as char
  }

  predicate IsLowerHexDigit(c: char)
  {
    '0' <= c <= '9' || 'a' <= c <= 'f'
  }

  predicate IsLowerHex(s: string)
  {
    forall i :: 0 <= i < |s| ==> IsLowerHexDigit(s[i])
  }

  /** bytes.hex(): two lower-case hex digits per byte, high nibble first. */
  function Hex(bs: seq<byte>): (s: string)
    ensures |s| == 2 * |bs| && IsLowerHex(s)
  {
    if bs == [] then []
    else
      var s := [HexDigit(bs[0] as int / 16), HexDigit(bs[0] as int % 16)] + Hex(bs[1..]);
      assert forall i :: 2 <= i < |s| ==> s[i] == Hex(bs[1..])[i - 2];
      s
  }

  /** The value of a hex digit of either case, as int(c, 16) reads it. */
  function HexValue(c: char): (v: Option<nat>)
    ensures v.Some? ==> v.value < 16
  {
    if '0' <= c <= '9' then Some(c as nat - '0' as nat)
    else if 'a' <= c <= 'f' then Some(c as nat - 'a' as nat + 10)
    else if 'A' <= c <= 'F' then Some(c as nat - 'A' as nat + 10)
    else None
  }

  /** The characters bytes.fromhex skips: ASCII space, tab, line feed, vertical tab, form feed, carriage return. */
  predicate IsAsciiWhitespace(c: char)
  {
    c == ' ' || c == '\t' || c == '\n' || c as int == 11 || c as int == 12 || c == '\r'
  }

  /** bytes.fromhex(s): whitespace may stand before any pair of digits; anything else is a ValueError. */
  function FromHex(s: string): Option<seq<byte>>
    decreases |s|
  {
    if s == [] then Some([])
    else if IsAsciiWhitespace(s[0]) then FromHex(s[1..])
    else if |s| < 2 then None
    else
      match (HexValue(s[0]), HexValue(s[1]), FromHex(s[2..]))
      case (Some(hi), Some(lo), Some(rest)) => Some([(16 * hi + lo) as byte] + rest)
      case _ => None
  }

  lemma HexDigitValue(d: nat)
    requires d < 16
    ensures HexValue(HexDigit(d)) == Some(d) && !IsAsciiWhitespace(HexDigit(d))
  {
  }

  lemma LowerHexValue(c: char)
    requires IsLowerHexDigit(c)
    ensures HexValue(c).Some? && HexDigit(HexValue(c).value) == c && !IsAsciiWhitespace(c)
  {
  }

  /** A decoding step: a pair of digits in front of a decodable rest. */
  lemma FromHexPair(s: string, hi: nat, lo: nat, rest: seq<byte>)
    requires |s| >= 2 && !IsAsciiWhitespace(s[0])
    requires HexValue(s[0]) == Some(hi) && HexValue(s[1]) == Some(lo) && FromHex(s[2..]) == Some(rest)
    ensures FromHex(s) == Some([(16 * hi + lo) as byte] + rest)
  {
  }

  /** fromhex(hex(b)) == b. */
  lemma {:induction false} FromHexOfHex(bs: seq<byte>)
    ensures FromHex(Hex(bs)) == Some(bs)
  {
    if bs != [] {
      var hi, lo := bs[0] as int / 16, bs[0] as int % 16;
      HexDigitValue(hi);
      HexDigitValue(lo);
      var h := Hex(bs);
      assert h == [HexDigit(hi), HexDigit(lo)] + Hex(bs[1..]);
      assert h[2..] == Hex(bs[1..]);
      FromHexOfHex(bs[1..]);
      FromHexPair(h, hi, lo, bs[1..]);
      assert (16 * hi + lo) as byte == bs[0];
      assert [bs[0]] + bs[1..] == bs;
    }
  }

  lemma HexCons(b: byte, rest: seq<byte>)
    ensures Hex([b] + rest) == [HexDigit(b as int / 16), HexDigit(b as int % 16)] + Hex(rest)
  {
    assert ([b] + rest)[0] == b && ([b] + rest)[1..] == rest;
  }

  /** Every even-length lower-case hex string is accepted and is the hex of what it decodes to. */
  lemma {:induction false} HexOfFromHex(s: string)
    requires IsLowerHex(s) && |s| % 2 == 0
    ensures FromHex(s).Some? && Hex(FromHex(s).value) == s
    decreases |s|
  {
    if s != [] {
      LowerHexValue(s[0]);
      LowerHexValue(s[1]);
      var tail := s[2..];
      assert IsLowerHex(tail) by {
        forall i | 0 <= i < |tail| ensures IsLowerHexDigit(tail[i]) {
          assert tail[i] == s[i + 2];
        }
      }
      HexOfFromHex(tail);
      var hi, lo := HexValue(s[0]).value, HexValue(s[1]).value;
      var rest := FromHex(tail).value;
      var b := (16 * hi + lo) as byte;
      FromHexPair(s, hi, lo, rest);
      assert b as int / 16 == hi && b as int % 16 == lo;
      HexCons(b, rest);
      assert s == [s[0], s[1]] + tail;
    }
  }

  lemma {:induction false} HexAppend(a: seq<byte>, b: seq<byte>)
    ensures Hex(a + b) == Hex(a) + Hex(b)
  {
    if a != [] {
      assert (a + b)[0] == a[0] && (a + b)[1..] == a[1..] + b;
      HexAppend(a[1..], b);
    } else {
      assert a + b == b;
    }
  }

  /** Cutting the hex text after 2k characters is cutting the bytes after k. */
  lemma HexSplit(bs: seq<byte>, k: nat)
    requires k <= |bs|
    ensures Hex(bs)[..2 * k] == Hex(bs[..k]) && Hex(bs)[2 * k..] == Hex(bs[k..])
  {
    assert bs == bs[..k] + bs[k..];
    HexAppend(bs[..k], bs[k..]);
  }

  /** UTF-8. A Dafny char is a Unicode scalar value, so every string encodes
      (Python's encode only fails on lone surrogates, which a char cannot hold). */

  function Utf8Char(c: char): (bs: seq<byte>)
    ensures 1 <= |bs| <= 4
    ensures |bs| == 1 <==> c as int < 0x80
    ensures c as int < 0x80 ==> bs[0] as int == c as int
  {
    var cp := c as int;
    if cp < 0x80 then [cp as byte]
    else if cp < 0x800 then [(0xC0 + cp / 64) as byte, (0x80 + cp % 64) as byte]
    else if cp < 0x10000 then [(0xE0 + cp / 4096) as byte, (0x80 + cp / 64 % 64) as byte, (0x80 + cp % 64) as byte]
    else [(0xF0 + cp / 262144) as byte, (0x80 + cp / 4096 % 64) as byte, (0x80 + cp / 64 % 64) as byte, (0x80 + cp % 64) as byte]
  }

  /** str.encode('utf-8'). */
  function Utf8Encode(s: string): (bs: seq<byte>)
    ensures |bs| >= |s|
  {
    if s == [] then [] else Utf8Char(s[0]) + Utf8Encode(s[1..])
  }

  lemma {:induction false} Utf8Append(a: string, b: string)
    ensures Utf8Encode(a + b) == Utf8Encode(a) + Utf8Encode(b)
  {
    if a == [] {
      assert a + b == b;
    } else {
      assert (a + b)[0] == a[0] && (a + b)[1..] == a[1..] + b;
      Utf8Append(a[1..], b);
    }
  }

  predicate IsAscii(s: string)
  {
    forall i :: 0 <= i < |s| ==> s[i] as int < 0x80
  }

  /** An ASCII string encodes to its own code points, one byte each. */
  lemma {:induction false} Utf8Ascii(s: string)
    requires IsAscii(s)
    ensures |Utf8Encode(s)| == |s|
    ensures forall i :: 0 <= i < |s| ==> Utf8Encode(s)[i] as int == s[i] as int
  {
    if s != [] {
      assert IsAscii(s[1..]) by {
        forall i | 0 <= i < |s[1..]| ensures s[1..][i] as int < 0x80 {
          assert s[1..][i] == s[i + 1];
        }
      }
      Utf8Ascii(s[1..]);
      forall i | 0 <= i < |s| ensures Utf8Encode(s)[i] as int == s[i] as int {
        if i > 0 {
          assert Utf8Encode(s)[i] == Utf8Encode(s[1..])[i - 1];
          assert s[1..][i - 1] == s[i];
        }
      }
    }
  }

  /** An ASCII string encodes to the bytes of its code points. */
  lemma Utf8OfAscii(s: string, bs: seq<byte>)
    requires IsAscii(s) && |bs| == |s|
    requires forall i :: 0 <= i < |s| ==> bs[i] as int == s[i] as int
    ensures Utf8Encode(s) == bs
  {
    Utf8Ascii(s);
  }
}
