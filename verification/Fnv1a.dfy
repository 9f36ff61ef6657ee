/** The FNV-1a hash of rf.c, from which device addresses are made. */
module Fnv1a {
  import opened CTypes

  const OFFSET: U32 := 2166136261
  const PRIME := 16777619
  const MODULUS := 0x1_0000_0000
  /** PRIME * INVERSE == 1 + 3513497 * MODULUS */
  const INVERSE := 0x359C449B

  /** Multiplication of `uint32_t` values, which wraps around. */
  function Times(x: U32, factor: nat): U32 {
    x * factor % MODULUS
  }

  /** Bitwise exclusive or, digit by digit. */
  function Xor(a: nat, b: nat): (c: nat)
    decreases a + b
  {
    if a == 0 && b == 0 then 0 else 2 * Xor(a / 2, b / 2) + (a + b) % 2
  }

  lemma {:induction false} XorBound(a: nat, b: nat, n: nat, bound: nat)
    requires bound == Power2(n) && a < bound && b < bound
    ensures Xor(a, b) < bound
    decreases n
  {
    if n > 0 {
      XorBound(a / 2, b / 2, n - 1, Power2(n - 1));
    }
  }

  function Power2(n: nat): nat {
    if n == 0 then 1 else 2 * Power2(n - 1)
  }

  function XorByte(x: U32, b: bv8): U32 {
    Power32();
    XorBound(x, b as nat, 32, MODULUS);
    Xor(x, b as nat)
  }

  lemma Power32()
    ensures Power2(32) == MODULUS
  {
    assert Power2(8) == 0x100;
    assert Power2(16) == 0x1_0000;
    assert Power2(24) == 0x100_0000;
  }

  function Step(hash: U32, b: bv8): U32 {
    Times(XorByte(hash, b), PRIME)
  }

  function Fold(hash: U32, data: seq<bv8>): U32 {
    if data == [] then hash else Step(Fold(hash, data[..|data| - 1]), data[|data| - 1])
  }

  function Hash(data: seq<bv8>): U32 {
    Fold(OFFSET, data)
  }

  /** `fnv1aHash` */
  method Compute(data: seq<bv8>) returns (hash: U32)
    ensures hash == Hash(data)
  {
    hash := OFFSET;
    for i := 0 to |data|
      invariant hash == Hash(data[..i])
    {
      hash := Times(XorByte(hash, data[i]), PRIME);
      assert data[..i + 1][..i] == data[..i];
    }
    assert data[..|data|] == data;
  }

  // ---------------------------------------------------------------- a step is a bijection

  /** The state before a step. */
  function Unstep(hash: U32, b: bv8): U32 {
    XorByte(Times(hash, INVERSE), b)
  }

  lemma MultipleGoes(x: U32, t: int)
    ensures (x + MODULUS * t) % MODULUS == x
  {
  }

  /** Modulo 2^32 the two factors undo each other, in either order. */
  lemma FactorsCancel(x: U32, f: nat, g: nat)
    requires (f == PRIME && g == INVERSE) || (f == INVERSE && g == PRIME)
    ensures Times(Times(x, f), g) == x
  {
    var q := x * f / MODULUS;
    assert x * f % MODULUS * g == x + MODULUS * (3513497 * x - q * g);
    MultipleGoes(x, 3513497 * x - q * g);
  }

  lemma NatAsByte(b: bv8)
    ensures (b as nat) as bv8 == b
  {
  }

  lemma XorUnfold(a: nat, b: nat)
    ensures Xor(a, b) == 2 * Xor(a / 2, b / 2) + (a + b) % 2
  {
  }

  lemma XorFold(h: nat, r: nat, b: nat)
    requires r < 2
    ensures Xor(2 * h + r, b) == 2 * Xor(h, b / 2) + (r + b) % 2
  {
    Halves(h, r, b);
    XorUnfold(2 * h + r, b);
  }

  lemma Halves(h: nat, r: nat, b: nat)
    requires r < 2
    ensures (2 * h + r) / 2 == h && (2 * h + r + b) % 2 == (r + b) % 2
  {
  }

  lemma SumParity(a: nat, b: nat)
    ensures ((a + b) % 2 + b) % 2 == a % 2
  {
  }

  lemma {:induction false} XorTwice(a: nat, b: nat)
    ensures Xor(Xor(a, b), b) == a
    decreases a + b
  {
    if a != 0 || b != 0 {
      XorTwice(a / 2, b / 2);
      XorUnfold(a, b);
      XorFold(Xor(a / 2, b / 2), (a + b) % 2, b);
      SumParity(a, b);
    }
  }

  /** A step is a bijection of the state. */
  lemma StepBijective(hash: U32, b: bv8)
    ensures Unstep(Step(hash, b), b) == hash && Step(Unstep(hash, b), b) == hash
  {
    FactorsCancel(XorByte(hash, b), PRIME, INVERSE);
    FactorsCancel(hash, INVERSE, PRIME);
    XorTwice(hash, b as nat);
    XorTwice(Times(hash, INVERSE), b as nat);
  }

  lemma {:induction false} XorCommutes(a: nat, b: nat)
    ensures Xor(a, b) == Xor(b, a)
    decreases a + b
  {
    if a != 0 || b != 0 {
      XorCommutes(a / 2, b / 2);
    }
  }

  lemma XorCancels(x: nat, a: nat, b: nat)
    requires Xor(x, a) == Xor(x, b)
    ensures a == b
  {
    XorCommutes(x, a);
    XorCommutes(x, b);
    XorTwice(a, x);
    XorTwice(b, x);
  }

  /** And injective in the byte. */
  lemma StepTellsBytes(hash: U32, a: bv8, b: bv8)
    requires Step(hash, a) == Step(hash, b)
    ensures a == b
  {
    FactorsCancel(XorByte(hash, a), PRIME, INVERSE);
    FactorsCancel(XorByte(hash, b), PRIME, INVERSE);
    XorCancels(hash, a as nat, b as nat);
    NatAsByte(a);
    NatAsByte(b);
  }

  lemma {:induction false} FoldInjective(g: U32, h: U32, data: seq<bv8>)
    requires Fold(g, data) == Fold(h, data)
    ensures g == h
    decreases |data|
  {
    if data != [] {
      var rest, b := data[..|data| - 1], data[|data| - 1];
      StepBijective(Fold(g, rest), b);
      StepBijective(Fold(h, rest), b);
      FoldInjective(g, h, rest);
    }
  }

  lemma {:induction false} FoldCat(hash: U32, a: seq<bv8>, b: seq<bv8>)
    ensures Fold(hash, a + b) == Fold(Fold(hash, a), b)
    decreases |b|
  {
    if b == [] {
      assert a + b == a;
    } else {
      FoldCat(hash, a, b[..|b| - 1]);
      assert (a + b)[..|a + b| - 1] == a + b[..|b| - 1];
    }
  }

  lemma FoldOne(hash: U32, a: seq<bv8>, b: bv8, c: seq<bv8>)
    ensures Fold(hash, a + [b] + c) == Fold(Step(Fold(hash, a), b), c)
  {
    FoldCat(hash, a + [b], c);
    assert (a + [b])[..|a|] == a;
  }

  /** Inputs of one length that differ in exactly one byte never collide. */
  lemma OneByteNeverCollides(data: seq<bv8>, i: nat, b: bv8)
    requires i < |data| && b != data[i]
    ensures Hash(data[i := b]) != Hash(data)
  {
    var a, c := data[..i], data[i + 1..];
    assert data == a + [data[i]] + c && data[i := b] == a + [b] + c;
    FoldOne(OFFSET, a, data[i], c);
    FoldOne(OFFSET, a, b, c);
    var h := Fold(OFFSET, a);
    if Hash(data[i := b]) == Hash(data) {
      FoldInjective(Step(h, data[i]), Step(h, b), c);
      StepTellsBytes(h, data[i], b);
    }
  }

  // ---------------------------------------------------------------- digits

  lemma HalfOf(h: nat, r: nat)
    requires r < 2
    ensures (2 * h + r) / 2 == h && (2 * h + r) % 2 == r
  {
  }

  lemma {:induction false} XorZero(a: nat)
    ensures Xor(a, 0) == a
    decreases a
  {
    if a > 0 {
      XorZero(a / 2);
    }
  }

  /** h with k zeros behind its digits. */
  function Shifted(h: nat, k: nat): nat {
    if k == 0 then h else 2 * Shifted(h, k - 1)
  }

  /** The digits above those of b stay. */
  lemma {:induction false} XorAbove(h: nat, k: nat, l: nat, b: nat)
    requires l < Power2(k) && b < Power2(k)
    ensures Xor(Shifted(h, k) + l, b) == Shifted(h, k) + Xor(l, b)
    decreases k
  {
    if k == 0 {
      XorZero(h);
    } else {
      XorAbove(h, k - 1, l / 2, b / 2);
      XorHigher(Shifted(h, k - 1), l, b);
    }
  }

  lemma XorHigher(m: nat, l: nat, b: nat)
    requires Xor(m + l / 2, b / 2) == m + Xor(l / 2, b / 2)
    ensures Xor(2 * m + l, b) == 2 * m + Xor(l, b)
  {
    XorUnfold(l, b);
    XorUnfold(2 * m + l, b);
    EvenGoes(m, l, b);
  }

  lemma EvenGoes(m: nat, l: nat, b: nat)
    ensures (2 * m + l) / 2 == m + l / 2 && (2 * m + l + b) % 2 == (l + b) % 2
  {
  }

  lemma XorByteOf(h: nat, l: nat, b: nat)
    requires l < 256 && b < 256
    ensures Xor(256 * h + l, b) == 256 * h + Xor(l, b)
  {
    assert Power2(8) == 256;
    assert Shifted(h, 1) == 2 * h;
    assert Shifted(h, 3) == 8 * h;
    assert Shifted(h, 5) == 32 * h;
    assert Shifted(h, 7) == 128 * h;
    XorAbove(h, 8, l, b);
  }

  // ---------------------------------------------------------------- the exclusive or of bytes

  /** A number by its digits, highest first. */
  function Value(d: seq<nat>): nat {
    if d == [] then 0 else 2 * Value(d[..|d| - 1]) + d[|d| - 1]
  }

  function Sums(d: seq<nat>, e: seq<nat>): (s: seq<nat>)
    requires |d| == |e|
    ensures |s| == |d|
  {
    seq(|d|, i requires 0 <= i < |d| => (d[i] + e[i]) % 2)
  }

  lemma {:induction false} XorOfValues(d: seq<nat>, e: seq<nat>)
    requires |d| == |e| && forall i :: 0 <= i < |d| ==> d[i] < 2 && e[i] < 2
    ensures Xor(Value(d), Value(e)) == Value(Sums(d, e))
    decreases |d|
  {
    if d != [] {
      var n := |d| - 1;
      XorOfValues(d[..n], e[..n]);
      assert Sums(d, e)[..n] == Sums(d[..n], e[..n]);
      LastDigits(d, e, Sums(d, e), n);
    }
  }

  lemma LastDigits(d: seq<nat>, e: seq<nat>, s: seq<nat>, n: nat)
    requires |d| == |e| == |s| == n + 1 && d[n] < 2 && e[n] < 2 && s[n] == (d[n] + e[n]) % 2
    requires Xor(Value(d[..n]), Value(e[..n])) == Value(s[..n])
    ensures Xor(Value(d), Value(e)) == Value(s)
  {
    XorJoin(Value(d[..n]), Value(e[..n]), Value(s[..n]), d[n], e[n], Value(d), Value(e), Value(s));
  }

  lemma XorJoin(h: nat, c: nat, x: nat, r: nat, s: nat, v: nat, w: nat, y: nat)
    requires r < 2 && s < 2 && Xor(h, c) == x
    requires v == 2 * h + r && w == 2 * c + s && y == 2 * x + (r + s) % 2
    ensures Xor(v, w) == y
  {
    HalfOf(h, r);
    HalfOf(c, s);
    SumOf(h, c, r, s);
    XorUnfold(v, w);
  }

  lemma SumOf(h: nat, c: nat, r: nat, s: nat)
    ensures (2 * h + r + (2 * c + s)) % 2 == (r + s) % 2
  {
  }

  function BitOf(b: bv8, mask: bv8): nat {
    if b & mask == 0 then 0 else 1
  }

  function BitsOf(b: bv8): (d: seq<nat>)
    ensures |d| == 8 && forall i :: 0 <= i < 8 ==> d[i] < 2
  {
    seq(8, i requires 0 <= i < 8 => BitOf(b, Mask(i)))
  }

  lemma ByteIs(b: bv8)
    ensures b as nat ==
      128 * BitOf(b, 0x80) + 64 * BitOf(b, 0x40) + 32 * BitOf(b, 0x20) + 16 * BitOf(b, 0x10)
      + 8 * BitOf(b, 8) + 4 * BitOf(b, 4) + 2 * BitOf(b, 2) + BitOf(b, 1)
  {
  }

  lemma OneDigit(d: seq<nat>, k: nat)
    requires 0 < k <= |d|
    ensures Value(d[..k]) == 2 * Value(d[..k - 1]) + d[k - 1]
  {
    assert d[..k][..k - 1] == d[..k - 1];
  }

  lemma FourMore(d: seq<nat>, k: nat)
    requires k + 4 <= |d|
    ensures Value(d[..k + 4]) == 16 * Value(d[..k]) + 8 * d[k] + 4 * d[k + 1] + 2 * d[k + 2] + d[k + 3]
  {
    OneDigit(d, k + 1);
    OneDigit(d, k + 2);
    OneDigit(d, k + 3);
    OneDigit(d, k + 4);
  }

  lemma ValueOfBits(b: bv8)
    ensures Value(BitsOf(b)) == b as nat
  {
    var d := BitsOf(b);
    FourMore(d, 0);
    FourMore(d, 4);
    assert d[..8] == d;
    ByteIs(b);
  }

  /** The masks of the digits, highest first. */
  function Mask(i: nat): bv8
    requires i < 8
  {
    match i
    case 0 => 0x80
    case 1 => 0x40
    case 2 => 0x20
    case 3 => 0x10
    case 4 => 8
    case 5 => 4
    case 6 => 2
    case _ => 1
  }

  lemma XorBit(x: bv8, y: bv8, i: nat)
    requires i < 8
    ensures BitOf(x ^ y, Mask(i)) == (BitOf(x, Mask(i)) + BitOf(y, Mask(i))) % 2
  {
    if i == 0 {} else if i == 1 {} else if i == 2 {} else if i == 3 {}
    else if i == 4 {} else if i == 5 {} else if i == 6 {} else {}
  }

  lemma BitsOfXor(x: bv8, y: bv8)
    ensures BitsOf(x ^ y) == Sums(BitsOf(x), BitsOf(y))
  {
    forall i | 0 <= i < 8 ensures BitsOf(x ^ y)[i] == Sums(BitsOf(x), BitsOf(y))[i] {
      XorBit(x, y, i);
    }
  }

  /** On bytes, the exclusive or is that of the machine. */
  lemma XorOfBytes(x: bv8, y: bv8)
    ensures Xor(x as nat, y as nat) == (x ^ y) as nat
  {
    ValueOfBits(x);
    ValueOfBits(y);
    ValueOfBits(x ^ y);
    BitsOfXor(x, y);
    XorOfValues(BitsOf(x), BitsOf(y));
  }

  lemma StepOf(high: nat, low: bv8, b: bv8)
    requires 256 * high + low as nat < MODULUS
    ensures Step(256 * high + low as nat, b) == (256 * high + (low ^ b) as nat) * 16777619 % 4294967296
  {
    XorByteOf(high, low as nat, b as nat);
    XorOfBytes(low, b);
  }

  /** A byte takes part in a step with the lowest byte of the state only. */
  lemma StepByBytes(hash: U32, high: nat, low: bv8, b: bv8)
    requires hash == 256 * high + low as nat
    ensures Step(hash, b) == (256 * high + (low ^ b) as nat) * 16777619 % 4294967296
  {
    StepOf(high, low, b);
  }
}
