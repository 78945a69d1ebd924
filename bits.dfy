/** Bit strings written as text, the way the Python code handles them:
    strings of '0' and '1', most significant bit first. */
module Bits {

  function Min(a: int, b: int): int
  {
    if a <= b then a else b
  }

  predicate IsBinary(s: string)
  {
    forall i :: 0 <= i < |s| ==> s[i] == '0' || s[i] == '1'
  }

  function Pow2(n: nat): (r: nat)
    ensures r >= 1
  {
    if n == 0 then 1 else 2 * Pow2(n - 1)
  }

  lemma {:induction false} Pow2Monotone(a: nat, b: nat)
    requires a <= b
    ensures Pow2(a) <= Pow2(b)
  {
    if a < b {
      Pow2Monotone(a, b - 1);
    }
  }

  lemma {:induction false} Pow2Add(a: nat, b: nat)
    ensures Pow2(a + b) == Pow2(a) * Pow2(b)
  {
    if b > 0 {
      Pow2Add(a, b - 1);
      calc {
        Pow2(a + b);
        2 * Pow2(a + b - 1);
        2 * (Pow2(a) * Pow2(b - 1));
        Pow2(a) * (2 * Pow2(b - 1));
        Pow2(a) * Pow2(b);
      }
    }
  }

  function BitChar(b: nat): char
    requires b < 2
  {
    if b == 0 then '0' else '1'
  }

  function BitValue(c: char): nat
  {
    if c == '1' then 1 else 0
  }

  /** int(s, 2): the big-endian value of a bit string. */
  function BinToNat(s: string): (v: nat)
    ensures v < Pow2(|s|)
  {
    if s == [] then 0 else 2 * BinToNat(s[..|s| - 1]) + BitValue(s[|s| - 1])
  }

  /** k zero digits. */
  function Zeros(k: nat): (z: string)
    ensures |z| == k && forall i :: 0 <= i < k ==> z[i] == '0'
  {
    if k == 0 then [] else Zeros(k - 1) + "0"
  }

  /** bin(n)[2:]: the shortest binary numeral of n ("0" for zero). */
  function Bin(n: nat): (s: string)
    ensures IsBinary(s) && BinToNat(s) == n
    ensures n == 0 ==> s == "0"
    ensures n > 0 ==> |s| >= 1 && s[0] == '1'
    decreases n
  {
    if n < 2 then [BitChar(n)]
    else
      var s := Bin(n / 2) + [BitChar(n % 2)];
      assert s[..|s| - 1] == Bin(n / 2);
      s
  }

  /** s.zfill(width), for a string without a sign: left-pad with '0' up to width. */
  function ZFill(s: string, width: nat): (r: string)
    ensures |r| == if |s| >= width then |s| else width
    ensures r[|r| - |s|..] == s
    ensures forall i :: 0 <= i < |r| - |s| ==> r[i] == '0'
  {
    if |s| >= width then s else Zeros(width - |s|) + s
  }

  /** The width-bit big-endian representation of n modulo 2^width. */
  function NatToBits(n: nat, width: nat): (r: string)
    ensures |r| == width && IsBinary(r)
    ensures n < Pow2(width) ==> BinToNat(r) == n
  {
    if width == 0 then []
    else
      var r := NatToBits(n / 2, width - 1) + [BitChar(n % 2)];
      assert r[..width - 1] == NatToBits(n / 2, width - 1);
      r
  }

  /** A bit string is determined by its length and its value. */
  lemma {:induction false} NatToBitsOfBinToNat(s: string)
    requires IsBinary(s)
    ensures NatToBits(BinToNat(s), |s|) == s
  {
    if s != [] {
      var p := s[..|s| - 1];
      assert IsBinary(p) by {
        forall i | 0 <= i < |p| ensures p[i] == '0' || p[i] == '1' {
          assert p[i] == s[i];
        }
      }
      NatToBitsOfBinToNat(p);
      var v := BinToNat(s);
      assert v / 2 == BinToNat(p) && v % 2 == BitValue(s[|s| - 1]);
      assert s == p + [s[|s| - 1]];
    }
  }

  lemma BinaryUnique(s: string, t: string)
    requires IsBinary(s) && IsBinary(t) && |s| == |t|
    requires BinToNat(s) == BinToNat(t)
    ensures s == t
  {
    NatToBitsOfBinToNat(s);
    NatToBitsOfBinToNat(t);
  }

  lemma BinToNatSnoc(s: string, c: char)
    ensures BinToNat(s + [c]) == 2 * BinToNat(s) + BitValue(c)
  {
    assert (s + [c])[..|s|] == s;
  }

  lemma ShiftStep(x: int, p: int, y: int, bit: int)
    ensures 2 * (x * p + y) + bit == x * (2 * p) + (2 * y + bit)
  {
  }

  /** The value of a concatenation: the left part shifted by the right part's width. */
  lemma {:induction false} BinToNatAppend(a: string, b: string)
    ensures BinToNat(a + b) == BinToNat(a) * Pow2(|b|) + BinToNat(b)
  {
    if b == [] {
      assert a + b == a;
    } else {
      var b', c := b[..|b| - 1], b[|b| - 1];
      assert b == b' + [c];
      assert a + b == (a + b') + [c];
      BinToNatSnoc(a + b', c);
      BinToNatSnoc(b', c);
      BinToNatAppend(a, b');
      ShiftStep(BinToNat(a), Pow2(|b'|), BinToNat(b'), BitValue(c));
    }
  }

  lemma ZeroPrefix(z: string, b: string)
    requires BinToNat(z) == 0
    ensures BinToNat(z + b) == BinToNat(b)
  {
    BinToNatAppend(z, b);
  }

  lemma {:induction false} BinToNatZeros(k: nat)
    ensures BinToNat(Zeros(k)) == 0
  {
    if k > 0 {
      assert Zeros(k)[..k - 1] == Zeros(k - 1);
      BinToNatZeros(k - 1);
    }
  }

  lemma {:induction false} BinLength(n: nat, w: nat)
    requires 1 <= w && n < Pow2(w)
    ensures |Bin(n)| <= w
    decreases n
  {
    if n >= 2 {
      assert w >= 2;
      BinLength(n / 2, w - 1);
    }
  }

  /** Padding with leading zeros keeps a bit string binary and keeps its value. */
  lemma ZFillValue(s: string, w: nat)
    requires IsBinary(s)
    ensures IsBinary(ZFill(s, w)) && BinToNat(ZFill(s, w)) == BinToNat(s)
  {
    if |s| < w {
      var z := Zeros(w - |s|);
      assert ZFill(s, w) == z + s;
      assert IsBinary(z + s) by {
        forall i | 0 <= i < |z + s| ensures (z + s)[i] == '0' || (z + s)[i] == '1' {
          if i >= |z| { assert (z + s)[i] == s[i - |z|]; }
        }
      }
      BinToNatZeros(w - |s|);
      ZeroPrefix(z, s);
    }
  }

  /** bin(n)[2:].zfill(w) is the fixed-width representation whenever n fits in w bits. */
  lemma ZFillBin(n: nat, w: nat)
    requires 1 <= w && n < Pow2(w)
    ensures ZFill(Bin(n), w) == NatToBits(n, w)
  {
    BinLength(n, w);
    ZFillValue(Bin(n), w);
    BinaryUnique(ZFill(Bin(n), w), NatToBits(n, w));
  }

  lemma MulAtLeast(a: int, p: nat)
    requires a >= 1
    ensures a * p >= p
  {
  }

  lemma DivOfShift(x: nat, p: nat, y: nat)
    requires y < p
    ensures (x * p + y) / p == x
  {
    var n := x * p + y;
    var q, r := n / p, n % p;
    assert (q - x) * p == y - r by {
      assert q * p + r == n;
      assert (q - x) * p == q * p - x * p;
    }
    if q > x {
      MulAtLeast(q - x, p);
      assert false;
    } else if q < x {
      MulAtLeast(x - q, p);
      assert false;
    }
  }

  /** The first k bits of a bit string are its value shifted right by the other |s| - k bits. */
  lemma PrefixValue(s: string, k: nat)
    requires k <= |s|
    ensures BinToNat(s[..k]) == BinToNat(s) / Pow2(|s| - k)
  {
    var a, b := s[..k], s[k..];
    assert BinToNat(s) == BinToNat(a) * Pow2(|b|) + BinToNat(b) by {
      assert s == a + b;
      BinToNatAppend(a, b);
    }
    DivOfSum(BinToNat(s), BinToNat(a), Pow2(|b|), BinToNat(b));
  }

  lemma DivOfSum(n: nat, x: nat, p: nat, y: nat)
    requires n == x * p + y && y < p
    ensures n / p == x
  {
    DivOfShift(x, p, y);
  }
}
