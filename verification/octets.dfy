/** Bytes, four-octet addresses and the 32-bit unsigned value an address has
    in network (big-endian) order. */
module Octets {

  type Byte = x: int | 0 <= x < 256

  /** The C# `uint` range. */
  type U32 = x: int | 0 <= x < 0x1_0000_0000

  const MaxU32: U32 := 0xFFFF_FFFF

  /** An IPv4 address or mask as its four octets, most significant first. */
  datatype Quad = Quad(o0: Byte, o1: Byte, o2: Byte, o3: Byte) {

    function Octet(i: nat): Byte
      requires i < 4
    {
      if i == 0 then o0 else if i == 1 then o1 else if i == 2 then o2 else o3
    }
  }

  function Pow2(k: nat): (r: nat)
    ensures r >= 1
  {
    if k == 0 then 1 else 2 * Pow2(k - 1)
  }

  /** Bitwise AND of two naturals, one bit at a time from the least significant. */
  function And(x: nat, y: nat): (r: nat)
    decreases x
  {
    if x == 0 || y == 0 then 0
    else 2 * And(x / 2, y / 2) + (if x % 2 == 1 && y % 2 == 1 then 1 else 0)
  }

  /** The C# expression `(byte)(a & m)` on two bytes. */
  function AndByte(a: Byte, m: Byte): (r: Byte)
    ensures r <= a && r <= m
  {
    AndBound(a, m);
    And(a, m)
  }

  /** The AND of two numbers is at most either of them. */
  lemma {:induction false} AndBound(x: nat, y: nat)
    ensures And(x, y) <= x && And(x, y) <= y
    decreases x
  {
    if x != 0 && y != 0 {
      AndBound(x / 2, y / 2);
    }
  }

  /** The C# `byte` increment `b++`, which wraps from 255 to 0. */
  function Inc(b: Byte): (r: Byte)
    ensures r == 0 <==> b == 255
    ensures b < 255 ==> r == b + 1
  {
    (b + 1) % 256
  }

  /** The C# `byte` decrement `b--`, which wraps from 0 to 255. */
  function Dec(b: Byte): (r: Byte)
    ensures r == 255 <==> b == 0
    ensures b > 0 ==> r == b - 1
  {
    (b - 1) % 256
  }

  /** The value of an address in network order. */
  function ToU32(q: Quad): (n: U32)
    ensures n / 0x100_0000 == q.o0
    ensures n % 256 == q.o3
  {
    q.o0 * 0x100_0000 + q.o1 * 0x1_0000 + q.o2 * 0x100 + q.o3
  }

  /** The address whose network-order value is `n`. */
  function FromU32(n: U32): (q: Quad)
    ensures ToU32(q) == n
  {
    var low3 := n % 0x100_0000;
    var low2 := low3 % 0x1_0000;
    assert n == (n / 0x100_0000) * 0x100_0000 + low3;
    assert low3 == (low3 / 0x1_0000) * 0x1_0000 + low2;
    assert low2 == (low2 / 0x100) * 0x100 + low2 % 0x100;
    Quad(n / 0x100_0000, low3 / 0x1_0000, low2 / 0x100, low2 % 0x100)
  }

  /** Reading an address as a number and back loses nothing. */
  lemma FromToU32(q: Quad)
    ensures FromU32(ToU32(q)) == q
  {
  }

  /** Distinct addresses have distinct values. */
  lemma ToU32Injective(p: Quad, q: Quad)
    ensures ToU32(p) == ToU32(q) <==> p == q
  {
    if ToU32(p) == ToU32(q) {
      FromToU32(p);
      FromToU32(q);
    }
  }

  lemma {:induction false} AndCommutative(x: nat, y: nat)
    ensures And(x, y) == And(y, x)
    decreases x
  {
    if x != 0 && y != 0 {
      AndCommutative(x / 2, y / 2);
    }
  }

  lemma {:induction false} AndIdempotent(x: nat)
    ensures And(x, x) == x
    decreases x
  {
    if x != 0 {
      AndIdempotent(x / 2);
    }
  }

  /** Masking twice with the same mask is masking once. */
  lemma {:induction false} AndAbsorb(x: nat, m: nat)
    ensures And(And(x, m), m) == And(x, m)
    decreases x
  {
    if x != 0 && m != 0 {
      AndAbsorb(x / 2, m / 2);
      assert And(x, m) / 2 == And(x / 2, m / 2);
    }
  }

  /** A mask of `k` low one-bits keeps every number below `2^k`. */
  lemma {:induction false} AndLowOnes(x: nat, k: nat)
    requires x < Pow2(k)
    ensures And(x, Pow2(k) - 1) == x
    decreases k
  {
    if x != 0 {
      assert k > 0;
      AndLowOnes(x / 2, k - 1);
      AndStep(x, Pow2(k) - 1, x / 2, x % 2, Pow2(k - 1) - 1, 1);
    }
  }

  /** Masking with 255 keeps a byte. */
  lemma AndAllOnes(b: Byte)
    ensures AndByte(b, 255) == b
  {
    assert Pow2(8) == 256;
    AndLowOnes(b, 8);
  }

  /** `x` shifted left by `k` bits. */
  function Shl(x: nat, k: nat): nat {
    if k == 0 then x else 2 * Shl(x, k - 1)
  }

  /** AND of two numbers split at bit `k` is AND of the high parts above AND of
      the low parts. */
  lemma {:induction false} AndSplit(u: nat, v: nat, a: nat, b: nat, c: nat, d: nat, k: nat)
    requires u == Shl(a, k) + b && v == Shl(c, k) + d
    requires b < Pow2(k) && d < Pow2(k)
    ensures And(u, v) == Shl(And(a, c), k) + And(b, d)
    decreases k
  {
    if k > 0 {
      var x, y := Shl(a, k - 1) + b / 2, Shl(c, k - 1) + d / 2;
      AndSplit(x, y, a, b / 2, c, d / 2, k - 1);
      AndStep(u, v, x, b % 2, y, d % 2);
      AndStep(b, d, b / 2, b % 2, d / 2, d % 2);
      var bit := if b % 2 == 1 && d % 2 == 1 then 1 else 0;
      Combine(And(u, v), And(x, y), And(b, d),
              Shl(And(a, c), k), Shl(And(a, c), k - 1), And(b / 2, d / 2), bit);
    } else {
      assert b == 0 && d == 0;
    }
  }

  /** The bookkeeping step of `AndSplit`: both sides gain the same low bit. */
  lemma Combine(l: int, m: int, n: int, s: int, s1: int, h: int, bit: int)
    requires l == 2 * m + bit && m == s1 + h && n == 2 * h + bit && s == 2 * s1
    ensures l == s + n
  {
  }

  /** Appending one low bit to each operand appends their AND. */
  lemma AndStep(u: nat, v: nat, x: nat, i: nat, y: nat, j: nat)
    requires i < 2 && j < 2 && u == 2 * x + i && v == 2 * y + j
    ensures And(u, v) == 2 * And(x, y) + (if i == 1 && j == 1 then 1 else 0)
  {
    Halves(u, x, i);
    Halves(v, y, j);
    if u == 0 || v == 0 {
      assert x == 0 || y == 0;
    }
  }

  /** `2 * x + i` with a bit `i` halves to `x` with remainder `i`. */
  lemma Halves(u: nat, x: nat, i: nat)
    requires i < 2 && u == 2 * x + i
    ensures u / 2 == x && u % 2 == i
  {
  }

  /** Shifting by eight bits is multiplying by 256. */
  lemma ShlEight(x: nat)
    ensures Shl(x, 8) == x * 256
  {
    assert Shl(x, 1) == 2 * x;
    assert Shl(x, 2) == 4 * x;
    assert Shl(x, 3) == 8 * x;
    assert Shl(x, 4) == 16 * x;
    assert Shl(x, 5) == 32 * x;
    assert Shl(x, 6) == 64 * x;
    assert Shl(x, 7) == 128 * x;
  }

  /** AND with zero on either side is zero. */
  lemma AndZeroRight(x: nat, y: nat)
    requires x == 0 || y == 0
    ensures And(x, y) == 0 && And(y, x) == 0
  {
  }

  /** The per-octet mask of an address. */
  function MaskQuad(a: Quad, m: Quad): (r: Quad)
    ensures forall i :: 0 <= i < 4 ==> r.Octet(i) == AndByte(a.Octet(i), m.Octet(i))
  {
    Quad(AndByte(a.o0, m.o0), AndByte(a.o1, m.o1), AndByte(a.o2, m.o2), AndByte(a.o3, m.o3))
  }

  /** `AndSplit` at the octet boundary. */
  lemma AndSplitOctet(u: nat, v: nat, a: nat, b: Byte, c: nat, d: Byte)
    requires u == a * 256 + b && v == c * 256 + d
    ensures And(u, v) == And(a, c) * 256 + And(b, d)
  {
    assert Pow2(8) == 256;
    ShlEight(a);
    ShlEight(c);
    ShlEight(And(a, c));
    AndSplit(u, v, a, b, c, d, 8);
  }

  /** The three high octets of an address as one number. */
  function High3(q: Quad): nat
  {
    (q.o0 * 256 + q.o1) * 256 + q.o2
  }

  lemma MaskHigh3(a: Quad, m: Quad)
    ensures And(High3(a), High3(m)) == High3(MaskQuad(a, m))
  {
    var x, y := a.o0 * 256 + a.o1, m.o0 * 256 + m.o1;
    AndSplitOctet(x, y, a.o0, a.o1, m.o0, m.o1);
    AndSplitOctet(High3(a), High3(m), x, a.o2, y, m.o2);
  }

  /** Masking octet by octet is masking the 32-bit value. */
  lemma MaskQuadIsWordAnd(a: Quad, m: Quad)
    ensures ToU32(MaskQuad(a, m)) == And(ToU32(a), ToU32(m))
  {
    MaskHigh3(a, m);
    AndSplitOctet(ToU32(a), ToU32(m), High3(a), a.o3, High3(m), m.o3);
  }
}
