// Bytes, fixed-width words and the XOR checksum shared by the wire formats of the repository.
module Bytes {

  type byte = x: int | 0 <= x < 0x100
  type u16 = x: int | 0 <= x < 0x1_0000
  type u32 = x: int | 0 <= x < 0x1_0000_0000

  // ----- little-endian words -----

  function LowByte(x: u16): byte { x % 0x100 }

  function HighByte(x: u16): byte { x / 0x100 }

  function Word16(low: byte, high: byte): u16 { low + 0x100 * high }

  function Word32(b0: byte, b1: byte, b2: byte, b3: byte): u32 {
    b0 + 0x100 * b1 + 0x1_0000 * b2 + 0x100_0000 * b3
  }

  function Bytes32(x: u32): (s: seq<byte>)
    ensures |s| == 4 && Word32(s[0], s[1], s[2], s[3]) == x
  {
    var r1 := x / 0x100;
    var r2 := r1 / 0x100;
    [x % 0x100, r1 % 0x100, r2 % 0x100, r2 / 0x100]
  }

  // ----- exclusive or -----

  function Pow2(n: nat): nat { if n == 0 then 1 else 2 * Pow2(n - 1) }

  /** Bit `k` of a number, the lowest being bit 0. */
  function BitAt(x: nat, k: nat): nat { if k == 0 then x % 2 else BitAt(x / 2, k - 1) }

  /** The exclusive or of the lowest bits of two numbers. */
  function BitXor(a: nat, b: nat): (x: nat)
    ensures x < 2
  {
    if a % 2 == b % 2 then 0 else 1
  }

  /** The exclusive or of the lowest `bits` bits. */
  function XorLow(a: nat, b: nat, bits: nat): (x: nat)
    ensures x < Pow2(bits)
  {
    if bits == 0 then 0 else BitXor(a, b) + 2 * XorLow(a / 2, b / 2, bits - 1)
  }

  function Xor(a: byte, b: byte): byte {
    EightBits();
    XorLow(a, b, 8)
  }

  lemma Digits(bit: nat, rest: nat)
    requires bit < 2
    ensures (bit + 2 * rest) % 2 == bit && (bit + 2 * rest) / 2 == rest
  {
  }

  lemma XorLowDigits(a: nat, b: nat, bits: nat)
    requires bits > 0
    ensures XorLow(a, b, bits) % 2 == BitXor(a, b)
    ensures XorLow(a, b, bits) / 2 == XorLow(a / 2, b / 2, bits - 1)
    ensures XorLow(a, b, bits) == BitXor(a, b) + 2 * XorLow(a / 2, b / 2, bits - 1)
  {
    Digits(BitXor(a, b), XorLow(a / 2, b / 2, bits - 1));
  }

  /** Bit by bit, it is exclusive or. */
  lemma {:induction false} XorIsBitwise(a: nat, b: nat, bits: nat, k: nat)
    requires k < bits
    ensures BitAt(XorLow(a, b, bits), k) == 1 <==> BitAt(a, k) != BitAt(b, k)
    ensures BitAt(a, k) < 2 && BitAt(b, k) < 2
  {
    hide XorLow;
    XorLowDigits(a, b, bits);
    if k > 0 {
      XorIsBitwise(a / 2, b / 2, bits - 1, k - 1);
    }
  }

  lemma {:induction false} XorLowCancel(x: nat, a: nat, v: nat, bits: nat)
    ensures XorLow(XorLow(x, a, bits), XorLow(a, v, bits), bits) == XorLow(x, v, bits)
  {
    if bits > 0 {
      hide XorLow;
      XorLowDigits(x, a, bits);
      XorLowDigits(a, v, bits);
      XorLowDigits(x, v, bits);
      XorLowDigits(XorLow(x, a, bits), XorLow(a, v, bits), bits);
      XorLowCancel(x / 2, a / 2, v / 2, bits - 1);
    }
  }

  lemma {:induction false} XorLowSwap(x: nat, a: nat, b: nat, bits: nat)
    ensures XorLow(XorLow(x, a, bits), b, bits) == XorLow(XorLow(x, b, bits), a, bits)
  {
    if bits > 0 {
      hide XorLow;
      XorLowDigits(x, a, bits);
      XorLowDigits(x, b, bits);
      XorLowDigits(XorLow(x, a, bits), b, bits);
      XorLowDigits(XorLow(x, b, bits), a, bits);
      XorLowSwap(x / 2, a / 2, b / 2, bits - 1);
    }
  }

  lemma {:induction false} XorLowAssociates(x: nat, a: nat, b: nat, bits: nat)
    ensures XorLow(XorLow(x, a, bits), b, bits) == XorLow(x, XorLow(a, b, bits), bits)
  {
    if bits > 0 {
      hide XorLow;
      XorLowDigits(x, a, bits);
      XorLowDigits(a, b, bits);
      XorLowDigits(XorLow(x, a, bits), b, bits);
      XorLowDigits(x, XorLow(a, b, bits), bits);
      XorLowAssociates(x / 2, a / 2, b / 2, bits - 1);
    }
  }

  lemma {:induction false} XorLowUnchangedIff(x: nat, d: nat, bits: nat)
    requires x < Pow2(bits) && d < Pow2(bits)
    ensures XorLow(x, d, bits) == x <==> d == 0
  {
    if bits > 0 {
      hide XorLow;
      XorLowDigits(x, d, bits);
      XorLowUnchangedIff(x / 2, d / 2, bits - 1);
    }
  }

  lemma {:induction false} XorLowZeroIff(a: nat, b: nat, bits: nat)
    requires a < Pow2(bits) && b < Pow2(bits)
    ensures XorLow(a, b, bits) == 0 <==> a == b
  {
    if bits > 0 {
      hide XorLow;
      XorLowDigits(a, b, bits);
      XorLowZeroIff(a / 2, b / 2, bits - 1);
    }
  }

  lemma EightBits()
    ensures Pow2(8) == 0x100
  {
    assert Pow2(8) == 2 * (2 * (2 * (2 * Pow2(4))));
  }

  // ----- the XOR checksum -----

  /** The running XOR of a block, in the order the checksum loops take it. */
  function XorAll(s: seq<byte>): byte {
    if s == [] then 0 else Xor(XorAll(s[..|s| - 1]), s[|s| - 1])
  }

  lemma XorUnchangedIff(x: byte, d: byte)
    ensures Xor(x, d) == x <==> d == 0
  {
    EightBits();
    XorLowUnchangedIff(x, d, 8);
  }

  lemma XorZeroIff(a: byte, b: byte)
    ensures Xor(a, b) == 0 <==> a == b
  {
    EightBits();
    XorLowZeroIff(a, b, 8);
  }

  /** The XOR of a concatenation is that of its parts. */
  lemma {:induction false} XorAllConcat(s: seq<byte>, t: seq<byte>)
    ensures XorAll(s + t) == Xor(XorAll(s), XorAll(t))
    decreases |t|
  {
    hide XorLow;
    if t == [] {
      assert s + t == s;
      XorUnchangedIff(XorAll(s), 0);
    } else {
      var n := |t| - 1;
      assert (s + t)[..|s| + n] == s + t[..n];
      XorAllConcat(s, t[..n]);
      XorLowAssociates(XorAll(s), XorAll(t[..n]), t[n], 8);
    }
  }

  /** Bytes left out at the end go unnoticed exactly when their own XOR is zero. */
  lemma XorAllTailIff(s: seq<byte>, t: seq<byte>)
    ensures XorAll(s + t) == XorAll(s) <==> XorAll(t) == 0
  {
    hide Xor, XorAll;
    XorAllConcat(s, t);
    XorUnchangedIff(XorAll(s), XorAll(t));
  }

  /** Replacing one byte moves the checksum by exactly the difference of the two bytes. */
  lemma {:induction false} XorAllReplace(s: seq<byte>, i: nat, v: byte)
    requires i < |s|
    ensures XorAll(s[i := v]) == Xor(XorAll(s), Xor(s[i], v))
  {
    hide XorLow;
    var n := |s| - 1;
    var d := Xor(s[i], v);
    if i == n {
      assert s[i := v][..n] == s[..n];
      XorLowCancel(XorAll(s[..n]), s[n], v, 8);
    } else {
      assert s[i := v][..n] == s[..n][i := v];
      XorAllReplace(s[..n], i, v);
      XorLowSwap(XorAll(s[..n]), d, s[n], 8);
    }
  }

  /** One wrong byte never goes unnoticed. */
  lemma XorAllDetects(s: seq<byte>, i: nat, v: byte)
    requires i < |s|
    ensures XorAll(s[i := v]) == XorAll(s) <==> v == s[i]
  {
    XorAllReplace(s, i, v);
    XorUnchangedIff(XorAll(s), Xor(s[i], v));
    XorZeroIff(s[i], v);
  }
}
