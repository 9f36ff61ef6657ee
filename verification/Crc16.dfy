/** The byte-at-a-time CRC-16 of rf.c, the polynomial division it is meant to be, and the errors it
    detects. The division and the detection results are about bits; words and bytes only appear in
    the code's own step. */
module Crc16 {
  type Byte = bv8
  type Word = bv16

  const PRESET: Word := 0xFFFF

  // The three expressions of the loop of `crc16`.

  function Top(crc: Word, d: Byte): Byte {
    ((crc >> 8) as Byte) ^ d
  }

  function Fold(x: Byte): Byte {
    x ^ (x >> 4)
  }

  function Mix(crc: Word, x: Byte): Word {
    (crc << 8) ^ ((x as Word) << 12) ^ ((x as Word) << 5) ^ (x as Word)
  }

  /** One iteration of the loop of `crc16`. */
  function Step(crc: Word, d: Byte): Word {
    Mix(crc, Fold(Top(crc, d)))
  }

  /** The register after a whole message. */
  function Update(crc: Word, data: seq<Byte>): Word {
    if data == [] then crc else Step(Update(crc, data[..|data| - 1]), data[|data| - 1])
  }

  function Crc(data: seq<Byte>): Word {
    Update(PRESET, data)
  }

  lemma OneMoreByte(data: seq<Byte>)
    requires data != []
    ensures Crc(data) == Step(Crc(data[..|data| - 1]), data[|data| - 1])
  {
  }

  /** `crc16`, over data[from..from+length]; the length is a `uint8_t`. */
  method Compute(data: array<Byte>, from: nat, length: nat) returns (crc: Word)
    requires length < 0x100 && from + length <= data.Length
    ensures crc == Crc(data[from..from + length])
  {
    crc := PRESET;
    var p: nat, left: nat := from, length;
    while left > 0
      invariant left <= length && p + left == from + length
      invariant crc == Crc(data[from..p])
    {
      left := left - 1;
      ghost var before := crc;
      var x := Top(crc, data[p]);
      x := Fold(x);
      crc := Mix(crc, x);
      assert crc == Step(before, data[p]);
      OneMoreByte(data[from..p + 1]);
      assert data[from..p + 1][..p - from] == data[from..p] && data[from..p + 1][p - from] == data[p];
      p := p + 1;
    }
  }

  // ---------------------------------------------------------------- bits

  type Bits = seq<bool>

  /** Bit i, counted from the most significant one. */
  predicate ByteBit(d: Byte, i: nat)
    requires i < 8
  {
    if i == 0 then d & 0x80 != 0
    else if i == 1 then d & 0x40 != 0
    else if i == 2 then d & 0x20 != 0
    else if i == 3 then d & 0x10 != 0
    else if i == 4 then d & 8 != 0
    else if i == 5 then d & 4 != 0
    else if i == 6 then d & 2 != 0
    else d & 1 != 0
  }

  predicate WordBit(w: Word, i: nat)
    requires i < 16
  {
    if i == 0 then w & 0x8000 != 0
    else if i == 1 then w & 0x4000 != 0
    else if i == 2 then w & 0x2000 != 0
    else if i == 3 then w & 0x1000 != 0
    else if i == 4 then w & 0x800 != 0
    else if i == 5 then w & 0x400 != 0
    else if i == 6 then w & 0x200 != 0
    else if i == 7 then w & 0x100 != 0
    else if i == 8 then w & 0x80 != 0
    else if i == 9 then w & 0x40 != 0
    else if i == 10 then w & 0x20 != 0
    else if i == 11 then w & 0x10 != 0
    else if i == 12 then w & 8 != 0
    else if i == 13 then w & 4 != 0
    else if i == 14 then w & 2 != 0
    else w & 1 != 0
  }

  function ByteBits(d: Byte): (b: Bits)
    ensures |b| == 8
  {
    seq(8, i requires 0 <= i < 8 => ByteBit(d, i))
  }

  function WordBits(w: Word): (b: Bits)
    ensures |b| == 16
  {
    seq(16, i requires 0 <= i < 16 => WordBit(w, i))
  }

  /** The bits of a message, most significant first. */
  function DataBits(data: seq<Byte>): (b: Bits)
    ensures |b| == 8 * |data|
  {
    if data == [] then [] else DataBits(data[..|data| - 1]) + ByteBits(data[|data| - 1])
  }

  lemma ByteBitsTell(a: Byte, b: Byte)
    requires ByteBits(a) == ByteBits(b)
    ensures a == b
  {
    forall i | 0 <= i < 8 ensures ByteBit(a, i) == ByteBit(b, i) {
      assert ByteBits(a)[i] == ByteBits(b)[i];
    }
    assert ByteBit(a, 0) == ByteBit(b, 0);
    assert ByteBit(a, 1) == ByteBit(b, 1);
    assert ByteBit(a, 2) == ByteBit(b, 2);
    assert ByteBit(a, 3) == ByteBit(b, 3);
    assert ByteBit(a, 4) == ByteBit(b, 4);
    assert ByteBit(a, 5) == ByteBit(b, 5);
    assert ByteBit(a, 6) == ByteBit(b, 6);
    assert ByteBit(a, 7) == ByteBit(b, 7);
  }

  lemma WordBitAgrees(a: Word, b: Word, i: nat)
    requires i < 16 && WordBits(a) == WordBits(b)
    ensures WordBit(a, i) == WordBit(b, i)
  {
    assert WordBits(a)[i] == WordBits(b)[i];
  }

  lemma HighBitsTell(a: Word, b: Word)
    requires WordBits(a) == WordBits(b)
    ensures a >> 8 == b >> 8
  {
    WordBitAgrees(a, b, 0);
    WordBitAgrees(a, b, 1);
    WordBitAgrees(a, b, 2);
    WordBitAgrees(a, b, 3);
    WordBitAgrees(a, b, 4);
    WordBitAgrees(a, b, 5);
    WordBitAgrees(a, b, 6);
    WordBitAgrees(a, b, 7);
  }

  lemma LowBitsTell(a: Word, b: Word)
    requires WordBits(a) == WordBits(b)
    ensures a & 0xFF == b & 0xFF
  {
    WordBitAgrees(a, b, 8);
    WordBitAgrees(a, b, 9);
    WordBitAgrees(a, b, 10);
    WordBitAgrees(a, b, 11);
    WordBitAgrees(a, b, 12);
    WordBitAgrees(a, b, 13);
    WordBitAgrees(a, b, 14);
    WordBitAgrees(a, b, 15);
  }

  lemma WordBitsTell(a: Word, b: Word)
    requires WordBits(a) == WordBits(b)
    ensures a == b
  {
    HighBitsTell(a, b);
    LowBitsTell(a, b);
  }

  lemma {:induction false} DataBitsTell(a: seq<Byte>, b: seq<Byte>)
    requires |a| == |b| && DataBits(a) == DataBits(b)
    ensures a == b
    decreases |a|
  {
    if a != [] {
      var n := |a| - 1;
      assert DataBits(a)[..8 * n] == DataBits(a[..n]) && DataBits(b)[..8 * n] == DataBits(b[..n]);
      assert DataBits(a)[8 * n..] == ByteBits(a[n]) && DataBits(b)[8 * n..] == ByteBits(b[n]);
      DataBitsTell(a[..n], b[..n]);
      ByteBitsTell(a[n], b[n]);
      assert a == a[..n] + [a[n]] && b == b[..n] + [b[n]];
    }
  }

  function Zeros(n: nat): (z: Bits)
    ensures |z| == n
  {
    seq(n, _ => false)
  }

  function Xor(a: Bits, b: Bits): (c: Bits)
    requires |a| == |b|
    ensures |c| == |a|
    ensures forall i :: 0 <= i < |c| ==> c[i] == (a[i] != b[i])
  {
    seq(|a|, i requires 0 <= i < |a| => a[i] != b[i])
  }

  // ---------------------------------------------------------------- polynomial division

  /** x^16 + x^12 + x^5 + 1 (ITU-T V.41, section 2), highest power first. */
  const GENERATOR: Bits :=
    [true, false, false, false, true, false, false, false, false,
     false, false, true, false, false, false, false, true]

  /** Long division over GF(2): the remainder of a polynomial of at least 16 coefficients. */
  function Remainder(p: Bits): (r: Bits)
    requires |p| >= 16
    ensures |r| == 16
    decreases |p|
  {
    if |p| == 16 then p else Remainder(Subtract(p))
  }

  /** One step of it: if the leading coefficient is set, the generator is subtracted under it;
      then the leading coefficient is zero and goes. */
  function Subtract(p: Bits): (r: Bits)
    requires |p| >= 17
    ensures |r| == |p| - 1
  {
    (if p[0] then Xor(p[..17], GENERATOR) + p[17..] else p)[1..]
  }

  /** The checksum by definition: x^16 times the message, its first sixteen coefficients
      complemented, modulo the generator. */
  function Definition(message: Bits): Bits {
    var p := message + Zeros(16);
    Remainder(Xor(p[..16], WordBits(PRESET)) + p[16..])
  }

  // ---------------------------------------------------------------- the shift register

  /** The register, as bits, fed with one bit. */
  function Feed(v: Bits, b: bool): (w: Bits)
    requires |v| == 16
    ensures |w| == 16
    ensures forall i :: 0 <= i < 16 ==>
      w[i] == ((if i < 15 then v[i + 1] else false) != ((v[0] != b) && GENERATOR[i + 1]))
  {
    seq(16, i requires 0 <= i < 16 => (if i < 15 then v[i + 1] else false) != ((v[0] != b) && GENERATOR[i + 1]))
  }

  /** The register after the first n bits. */
  function FeedTo(v: Bits, bits: Bits, n: nat): (w: Bits)
    requires |v| == 16 && n <= |bits|
    ensures |w| == 16
  {
    if n == 0 then v else Feed(FeedTo(v, bits, n - 1), bits[n - 1])
  }

  function FeedAll(v: Bits, bits: Bits): (w: Bits)
    requires |v| == 16
    ensures |w| == 16
  {
    FeedTo(v, bits, |bits|)
  }

  lemma {:induction false} FeedSame(v: Bits, a: Bits, b: Bits, n: nat)
    requires |v| == 16 && n <= |a| && n <= |b| && forall i :: 0 <= i < n ==> a[i] == b[i]
    ensures FeedTo(v, a, n) == FeedTo(v, b, n)
  {
    if n > 0 {
      FeedSame(v, a, b, n - 1);
    }
  }

  lemma {:induction false} FeedCat(v: Bits, a: Bits, b: Bits, n: nat)
    requires |v| == 16 && n <= |b|
    ensures FeedTo(v, a + b, |a| + n) == FeedTo(FeedAll(v, a), b, n)
  {
    if n == 0 {
      FeedSame(v, a + b, a, |a|);
    } else {
      FeedCat(v, a, b, n - 1);
    }
  }

  // ---------------------------------------------------------------- a byte step is eight feeds

  // Bit by bit, what the three expressions of the loop do.

  lemma TopBit(crc: Word, d: Byte, i: nat)
    requires i < 8
    ensures ByteBit(Top(crc, d), i) == (WordBit(crc, i) != ByteBit(d, i))
  {
    if i == 0 {} else if i == 1 {} else if i == 2 {} else if i == 3 {}
    else if i == 4 {} else if i == 5 {} else if i == 6 {} else {}
  }

  lemma FoldBit(t: Byte, i: nat)
    requires i < 8
    ensures ByteBit(Fold(t), i) == (ByteBit(t, i) != (i >= 4 && ByteBit(t, i - 4)))
  {
  }

  lemma MixBit(crc: Word, y: Byte, i: nat)
    requires i < 16
    ensures WordBit(Mix(crc, y), i)
         == (((i < 8 && WordBit(crc, i + 8)) != (i < 4 && ByteBit(y, i + 4)))
             != ((3 <= i <= 10 && ByteBit(y, i - 3)) != (i >= 8 && ByteBit(y, i - 8))))
  {
    if i < 8 {
      MixBitHigh(crc, y, i);
    } else {
      MixBitLow(crc, y, i);
    }
  }

  lemma MixBitHigh(crc: Word, y: Byte, i: nat)
    requires i < 8
    ensures WordBit(Mix(crc, y), i)
         == ((WordBit(crc, i + 8) != (i < 4 && ByteBit(y, i + 4))) != (3 <= i && ByteBit(y, i - 3)))
  {
    if i == 0 {} else if i == 1 {} else if i == 2 {} else if i == 3 {}
    else if i == 4 {} else if i == 5 {} else if i == 6 {} else {}
  }

  lemma MixBitLow(crc: Word, y: Byte, i: nat)
    requires 8 <= i < 16
    ensures WordBit(Mix(crc, y), i) == ((i <= 10 && ByteBit(y, i - 3)) != ByteBit(y, i - 8))
  {
  }

  // The same as relations between bit sequences.

  predicate Summed(v: Bits, e: Bits, t: Bits)
    requires |v| == 16 && |e| == 8 && |t| == 8
  {
    forall i {:trigger t[i]} :: 0 <= i < 8 ==> t[i] == (v[i] != e[i])
  }

  predicate Folded(t: Bits, y: Bits)
    requires |t| == 8 && |y| == 8
  {
    forall i {:trigger y[i]} :: 0 <= i < 8 ==> y[i] == (t[i] != (i >= 4 && t[i - 4]))
  }

  predicate Mixed(v: Bits, y: Bits, w: Bits)
    requires |v| == 16 && |y| == 8 && |w| == 16
  {
    forall i {:trigger w[i]} :: 0 <= i < 16 ==>
      w[i] == (((i < 8 && v[i + 8]) != (i < 4 && y[i + 4])) != ((3 <= i <= 10 && y[i - 3]) != (i >= 8 && y[i - 8])))
  }

  lemma TopBits(crc: Word, d: Byte)
    ensures Summed(WordBits(crc), ByteBits(d), ByteBits(Top(crc, d)))
  {
    forall i | 0 <= i < 8 ensures ByteBits(Top(crc, d))[i] == (WordBits(crc)[i] != ByteBits(d)[i]) {
      TopBit(crc, d, i);
    }
  }

  lemma FoldBits(t: Byte)
    ensures Folded(ByteBits(t), ByteBits(Fold(t)))
  {
    forall i | 0 <= i < 8 ensures ByteBits(Fold(t))[i] == (ByteBits(t)[i] != (i >= 4 && ByteBits(t)[i - 4])) {
      FoldBit(t, i);
    }
  }

  lemma MixBits(crc: Word, y: Byte)
    ensures Mixed(WordBits(crc), ByteBits(y), WordBits(Mix(crc, y)))
  {
    forall i | 0 <= i < 16
      ensures WordBits(Mix(crc, y))[i]
           == (((i < 8 && WordBits(crc)[i + 8]) != (i < 4 && ByteBits(y)[i + 4]))
               != ((3 <= i <= 10 && ByteBits(y)[i - 3]) != (i >= 8 && ByteBits(y)[i - 8])))
    {
      MixBit(crc, y, i);
    }
  }

  /** What two feeds make of register v when they produce the quotient bits m and n. */
  predicate TwoFed(v: Bits, m: bool, n: bool, u: Bits)
    requires |v| == 16 && |u| == 16
  {
    forall i {:trigger u[i]} :: 0 <= i < 16 ==>
      u[i] == (((i < 14 && v[i + 2]) != ((i == 2 || i == 9 || i == 14) && m)) != ((i == 3 || i == 10 || i == 15) && n))
  }

  lemma TwoFeeds(v: Bits, e: Bits, k: nat)
    requires |v| == 16 && k + 2 <= |e|
    ensures var u := FeedTo(v, e, k);
      TwoFed(u, u[0] != e[k], u[1] != e[k + 1], FeedTo(v, e, k + 2))
  {
    var u, u1, u2 := FeedTo(v, e, k), FeedTo(v, e, k + 1), FeedTo(v, e, k + 2);
    assert u1[0] == u[1];
  }

  /** The same for four feeds with the quotient bits m, n, p, q. */
  predicate FourFed(v: Bits, m: bool, n: bool, p: bool, q: bool, u: Bits)
    requires |v| == 16 && |u| == 16
  {
    forall i {:trigger u[i]} :: 0 <= i < 16 ==>
      u[i] == ((((i < 12 && v[i + 4]) != ((i == 0 || i == 7 || i == 12) && m)) != ((i == 1 || i == 8 || i == 13) && n))
               != (((i == 2 || i == 9 || i == 14) && p) != ((i == 3 || i == 10 || i == 15) && q)))
  }

  lemma TwiceTwo(v: Bits, m: bool, n: bool, u: Bits, p: bool, q: bool, w: Bits)
    requires |v| == 16 && |u| == 16 && |w| == 16 && TwoFed(v, m, n, u) && TwoFed(u, p, q, w)
    ensures FourFed(v, m, n, p, q, w)
  {
    forall i | 0 <= i < 16
      ensures w[i] == ((((i < 12 && v[i + 4]) != ((i == 0 || i == 7 || i == 12) && m))
                        != ((i == 1 || i == 8 || i == 13) && n))
                       != (((i == 2 || i == 9 || i == 14) && p) != ((i == 3 || i == 10 || i == 15) && q)))
    {
      assert i < 14 ==> u[i + 2] == u[i + 2];
    }
  }

  lemma FourFeeds(v: Bits, e: Bits, k: nat)
    requires |v| == 16 && k + 4 <= |e|
    ensures var u := FeedTo(v, e, k);
      FourFed(u, u[0] != e[k], u[1] != e[k + 1], u[2] != e[k + 2], u[3] != e[k + 3], FeedTo(v, e, k + 4))
  {
    var u, u2 := FeedTo(v, e, k), FeedTo(v, e, k + 2);
    TwoFeeds(v, e, k);
    TwoFeeds(v, e, k + 2);
    TwiceTwo(u, u[0] != e[k], u[1] != e[k + 1], u2, u2[0] != e[k + 2], u2[1] != e[k + 3], FeedTo(v, e, k + 4));
  }

  lemma TwiceFour(v: Bits, y: Bits, u: Bits, w: Bits)
    requires |v| == 16 && |y| == 8 && |u| == 16 && |w| == 16
    requires FourFed(v, y[0], y[1], y[2], y[3], u) && FourFed(u, y[4], y[5], y[6], y[7], w)
    ensures Mixed(v, y, w)
  {
    forall i | 0 <= i < 16
      ensures w[i] == (((i < 8 && v[i + 8]) != (i < 4 && y[i + 4]))
                       != ((3 <= i <= 10 && y[i - 3]) != (i >= 8 && y[i - 8])))
    {
      if i < 12 {
        assert u[i + 4] == u[i + 4];
      }
    }
  }

  lemma QuotientBits(v: Bits, e: Bits, t: Bits, y: Bits, u: Bits)
    requires |v| == 16 && |e| == 8 && |t| == 8 && |y| == 8 && |u| == 16 && Summed(v, e, t) && Folded(t, y)
    ensures y[0] == (v[0] != e[0]) && y[1] == (v[1] != e[1]) && y[2] == (v[2] != e[2]) && y[3] == (v[3] != e[3])
    ensures FourFed(v, y[0], y[1], y[2], y[3], u) ==>
      y[4] == (u[0] != e[4]) && y[5] == (u[1] != e[5]) && y[6] == (u[2] != e[6]) && y[7] == (u[3] != e[7])
  {
  }

  lemma MixedUnique(v: Bits, y: Bits, w: Bits, w': Bits)
    requires |v| == 16 && |y| == 8 && |w| == 16 && |w'| == 16 && Mixed(v, y, w) && Mixed(v, y, w')
    ensures w == w'
  {
    forall i | 0 <= i < 16 ensures w[i] == w'[i] {
    }
  }

  /** Eight feeds produce the quotient bits y and leave the residue w. */
  lemma FeedsRelate(v: Bits, e: Bits, t: Bits, y: Bits, w: Bits)
    requires |v| == 16 && |e| == 8 && |t| == 8 && |y| == 8 && |w| == 16
    requires Summed(v, e, t) && Folded(t, y) && Mixed(v, y, w)
    ensures FeedAll(v, e) == w
  {
    var u := FeedTo(v, e, 4);
    FourFeeds(v, e, 0);
    FourFeeds(v, e, 4);
    QuotientBits(v, e, t, y, u);
    TwiceFour(v, y, u, FeedAll(v, e));
    MixedUnique(v, y, w, FeedAll(v, e));
  }

  lemma StepIsEightFeeds(crc: Word, d: Byte)
    ensures WordBits(Step(crc, d)) == FeedAll(WordBits(crc), ByteBits(d))
  {
    var t := Top(crc, d);
    TopBits(crc, d);
    FoldBits(t);
    MixBits(crc, Fold(t));
    FeedsRelate(WordBits(crc), ByteBits(d), ByteBits(t), ByteBits(Fold(t)), WordBits(Step(crc, d)));
  }

  /** The byte-at-a-time register is the bit-serial one. */
  lemma {:induction false} BytesAreBits(crc: Word, data: seq<Byte>)
    ensures WordBits(Update(crc, data)) == FeedAll(WordBits(crc), DataBits(data))
    decreases |data|
  {
    if data != [] {
      var rest, last := data[..|data| - 1], data[|data| - 1];
      BytesAreBits(crc, rest);
      StepIsEightFeeds(Update(crc, rest), last);
      FeedCat(WordBits(crc), DataBits(rest), ByteBits(last), 8);
    }
  }

  // ---------------------------------------------------------------- the register divides

  /** The dividend that remains when the register holds v and `rest` is still to be fed. */
  function Dividend(v: Bits, rest: Bits): (p: Bits)
    requires |v| == 16
    ensures |p| == |rest| + 16
  {
    var p := rest + Zeros(16);
    Xor(p[..16], v) + p[16..]
  }

  lemma DividendBits(v: Bits, rest: Bits)
    requires |v| == 16
    ensures forall i :: 0 <= i < |rest| + 16 ==>
      Dividend(v, rest)[i] == ((if i < |rest| then rest[i] else false) != (if i < 16 then v[i] else false))
  {
    var p := rest + Zeros(16);
    assert forall i :: 0 <= i < |p| ==> p[i] == if i < |rest| then rest[i] else false;
  }

  /** One feed is one step of the long division. */
  lemma FeedSubtracts(v: Bits, rest: Bits)
    requires |v| == 16 && rest != []
    ensures Subtract(Dividend(v, rest)) == Dividend(Feed(v, rest[0]), rest[1..])
  {
    var p := Dividend(v, rest);
    var p' := Dividend(Feed(v, rest[0]), rest[1..]);
    DividendBits(v, rest);
    DividendBits(Feed(v, rest[0]), rest[1..]);
    forall i | 0 <= i < |p'| ensures Subtract(p)[i] == p'[i] {
      assert p[i + 1] == ((if i + 1 < |rest| then rest[i + 1] else false) != (if i < 15 then v[i + 1] else false));
      assert Subtract(p)[i] == (p[i + 1] != (p[0] && i < 16 && GENERATOR[i + 1]));
    }
  }

  lemma {:induction false} RegisterDivides(v: Bits, rest: Bits)
    requires |v| == 16
    ensures FeedAll(v, rest) == Remainder(Dividend(v, rest))
    decreases |rest|
  {
    if rest == [] {
      DividendBits(v, rest);
      assert Dividend(v, rest) == v;
    } else {
      FeedSubtracts(v, rest);
      RegisterDivides(Feed(v, rest[0]), rest[1..]);
      FeedCat(v, rest[..1], rest[1..], |rest| - 1);
      assert rest[..1] + rest[1..] == rest;
      assert FeedTo(v, rest[..1], 1) == Feed(FeedTo(v, rest[..1], 0), rest[0]);
    }
  }

  /** The byte-at-a-time checksum is the polynomial division. */
  lemma CrcDivides(data: seq<Byte>)
    ensures WordBits(Crc(data)) == Definition(DataBits(data))
  {
    BytesAreBits(PRESET, data);
    RegisterDivides(WordBits(PRESET), DataBits(data));
  }

  // ---------------------------------------------------------------- differences

  lemma FeedLinear(v: Bits, u: Bits, a: bool, b: bool)
    requires |v| == 16 && |u| == 16
    ensures Feed(Xor(v, u), a != b) == Xor(Feed(v, a), Feed(u, b))
  {
  }

  /** The register is affine in the message: a difference of messages travels by itself. */
  lemma {:induction false} FeedXor(v: Bits, u: Bits, a: Bits, b: Bits, n: nat)
    requires |v| == 16 && |u| == 16 && |a| == |b| && n <= |a|
    ensures FeedTo(Xor(v, u), Xor(a, b), n) == Xor(FeedTo(v, a, n), FeedTo(u, b, n))
  {
    if n > 0 {
      FeedXor(v, u, a, b, n - 1);
      FeedLinear(FeedTo(v, a, n - 1), FeedTo(u, b, n - 1), a[n - 1], b[n - 1]);
    }
  }

  lemma FeedInjective(v: Bits, u: Bits, b: bool)
    requires |v| == 16 && |u| == 16 && Feed(v, b) == Feed(u, b)
    ensures v == u
  {
    assert Feed(v, b)[15] == (v[0] != b) && Feed(u, b)[15] == (u[0] != b);
    forall i | 0 <= i < 16 ensures v[i] == u[i] {
      if i > 0 {
        assert Feed(v, b)[i - 1] == Feed(u, b)[i - 1];
      }
    }
  }

  /** For fixed bits the register map is injective, hence a bijection of its 2^16 states. */
  lemma {:induction false} FeedToInjective(v: Bits, u: Bits, bits: Bits, n: nat)
    requires |v| == 16 && |u| == 16 && n <= |bits| && FeedTo(v, bits, n) == FeedTo(u, bits, n)
    ensures v == u
  {
    if n > 0 {
      FeedInjective(FeedTo(v, bits, n - 1), FeedTo(u, bits, n - 1), bits[n - 1]);
      FeedToInjective(v, u, bits, n - 1);
    }
  }

  lemma StepInjective(r: Word, s: Word, d: Byte)
    requires Step(r, d) == Step(s, d)
    ensures r == s
  {
    StepIsEightFeeds(r, d);
    StepIsEightFeeds(s, d);
    FeedToInjective(WordBits(r), WordBits(s), ByteBits(d), 8);
    WordBitsTell(r, s);
  }

  predicate AllZero(b: Bits) {
    forall i :: 0 <= i < |b| ==> !b[i]
  }

  lemma {:induction false} ZerosStay(z: Bits, bits: Bits, n: nat)
    requires |z| == 16 && AllZero(z) && n <= |bits| && forall i :: 0 <= i < n ==> !bits[i]
    ensures AllZero(FeedTo(z, bits, n)) && FeedTo(z, bits, n) == z
  {
    if n > 0 {
      ZerosStay(z, bits, n - 1);
    }
  }

  /** Sixteen bits fed into a zero register are as good as a register preset to them. */
  lemma FedIsPreset(z: Bits, w: Bits)
    requires |w| == 16 && |z| == 16 && AllZero(z)
    ensures FeedAll(z, w) == FeedAll(w, z)
  {
    RegisterDivides(z, w);
    RegisterDivides(w, z);
    DividendBits(z, w);
    DividendBits(w, z);
    assert Dividend(z, w) == Dividend(w, z);
  }

  lemma PresetNonzero(z: Bits, p: Bits)
    requires |p| == 16 && |z| == 16 && AllZero(z) && AllZero(FeedAll(z, p))
    ensures AllZero(p)
  {
    FedIsPreset(z, p);
    ZerosStay(z, z, 16);
    assert FeedAll(p, z) == z;
    FeedToInjective(p, z, z, 16);
  }

  /** Up to sixteen bits, not all zero, never leave a zero register zero. */
  lemma ShortNonzero(z: Bits, w: Bits)
    requires |z| == 16 && AllZero(z) && |w| <= 16 && AllZero(FeedAll(z, w))
    ensures AllZero(w)
  {
    var pad := Zeros(16 - |w|);
    var p := w + pad;
    FeedCat(z, w, pad, |pad|);
    ZerosStay(FeedAll(z, w), pad, |pad|);
    PresetNonzero(z, p);
    assert forall i :: 0 <= i < |w| ==> w[i] == p[i];
  }

  /** All differences lie within `width` consecutive bits that start at bit `at`. */
  predicate Burst(a: Bits, b: Bits, at: nat, width: nat)
    requires |a| == |b|
  {
    forall i :: 0 <= i < |a| && a[i] != b[i] ==> at <= i < at + width
  }

  lemma CutSuffix(z: Bits, u: Bits, c: Bits)
    requires |z| == 16 && AllZero(z) && |u| == 16 && AllZero(c) && AllZero(FeedAll(u, c))
    ensures AllZero(u)
  {
    ZerosStay(z, c, |c|);
    assert FeedAll(u, c) == z;
    FeedToInjective(u, z, c, |c|);
  }

  lemma BurstPieces(z: Bits, a: Bits, w: Bits, c: Bits)
    requires |z| == 16 && AllZero(z) && AllZero(a) && AllZero(c) && |w| <= 16 && AllZero(FeedAll(z, a + w + c))
    ensures AllZero(w)
  {
    FeedCat(z, a + w, c, |c|);
    CutSuffix(z, FeedAll(z, a + w), c);
    FeedCat(z, a, w, |w|);
    ZerosStay(z, a, |a|);
    ShortNonzero(z, w);
  }

  lemma BurstCore(z: Bits, d: Bits, at: nat)
    requires |z| == 16 && AllZero(z) && AllZero(FeedAll(z, d))
    requires at <= |d| && forall i :: 0 <= i < |d| && d[i] ==> at <= i < at + 16
    ensures AllZero(d)
  {
    var end := if at + 16 <= |d| then at + 16 else |d|;
    var a, w, c := d[..at], d[at..end], d[end..];
    assert d == a + w + c;
    BurstPieces(z, a, w, c);
    forall i | 0 <= i < |d| ensures !d[i] {
      if at <= i < end {
        assert d[i] == w[i - at];
      }
    }
  }

  /** Two different messages of one length whose differences lie within sixteen consecutive bits
      never get the same checksum. */
  lemma BurstsAreDetected(data: seq<Byte>, data': seq<Byte>, at: nat)
    requires |data| == |data'| && data != data'
    requires Burst(DataBits(data), DataBits(data'), at, 16)
    ensures Crc(data) != Crc(data')
  {
    if Crc(data) == Crc(data') {
      var a, b, v := DataBits(data), DataBits(data'), WordBits(PRESET);
      var d := Xor(a, b);
      BytesAreBits(PRESET, data);
      BytesAreBits(PRESET, data');
      FeedXor(v, v, a, b, |a|);
      assert AllZero(FeedAll(Xor(v, v), d));
      BurstCore(Xor(v, v), d, if at <= |d| then at else |d|);
      assert forall i :: 0 <= i < |a| ==> d[i] == (a[i] != b[i]);
      assert a == b;
      DataBitsTell(data, data');
    }
  }

  // ---------------------------------------------------------------- parity

  /** Whether the number of one-bits is odd. */
  predicate Parity(b: Bits) {
    b != [] && b[|b| - 1] != Parity(b[..|b| - 1])
  }

  lemma {:induction false} ParityXor(a: Bits, b: Bits)
    requires |a| == |b|
    ensures Parity(Xor(a, b)) == (Parity(a) != Parity(b))
    decreases |a|
  {
    if a != [] {
      var n := |a| - 1;
      ParityXor(a[..n], b[..n]);
      assert Xor(a, b)[..n] == Xor(a[..n], b[..n]);
    }
  }

  lemma {:induction false} ParityCat(a: Bits, b: Bits)
    ensures Parity(a + b) == (Parity(a) != Parity(b))
    decreases |b|
  {
    if b == [] {
      assert a + b == a;
    } else {
      ParityCat(a, b[..|b| - 1]);
      assert (a + b)[..|a + b| - 1] == a + b[..|b| - 1];
    }
  }

  lemma {:induction false} ParityZeros(n: nat)
    ensures !Parity(Zeros(n))
  {
    if n > 0 {
      ParityZeros(n - 1);
      assert Zeros(n)[..n - 1] == Zeros(n - 1);
    }
  }

  lemma ParityFeed(v: Bits, b: bool)
    requires |v| == 16
    ensures Parity(Feed(v, b)) == (Parity(v) != b)
  {
    var moved := v[1..] + [false];
    var taps := GENERATOR[1..];
    ParityCat([v[0]], v[1..]);
    assert [v[0]] + v[1..] == v;
    ParityCat(v[1..], [false]);
    ParitySingle(false);
    ParitySingle(v[0]);
    ParityTaps();
    if v[0] != b {
      ParityXor(moved, taps);
      assert Feed(v, b) == Xor(moved, taps);
    } else {
      assert Feed(v, b) == moved;
    }
  }

  lemma ParitySingle(b: bool)
    ensures Parity([b]) == b
  {
    assert [b][..0] == [];
  }

  /** The generator without its leading term has an odd number of terms. */
  lemma ParityTaps()
    ensures Parity(GENERATOR[1..])
  {
    var g := GENERATOR[1..];
    var ones := Zeros(3) + [true] + Zeros(6) + [true] + Zeros(4) + [true];
    assert g == ones;
    ParityCat(Zeros(3), [true]);
    ParityCat(Zeros(3) + [true], Zeros(6));
    ParityCat(Zeros(3) + [true] + Zeros(6), [true]);
    ParityCat(Zeros(3) + [true] + Zeros(6) + [true], Zeros(4));
    ParityCat(Zeros(3) + [true] + Zeros(6) + [true] + Zeros(4), [true]);
    ParitySingle(true);
    ParityZeros(3);
    ParityZeros(6);
    ParityZeros(4);
  }

  lemma {:induction false} ParityFeeds(v: Bits, bits: Bits, n: nat)
    requires |v| == 16 && n <= |bits|
    ensures Parity(FeedTo(v, bits, n)) == (Parity(v) != Parity(bits[..n]))
  {
    if n == 0 {
      assert bits[..0] == [];
    } else {
      ParityFeeds(v, bits, n - 1);
      ParityFeed(FeedTo(v, bits, n - 1), bits[n - 1]);
      assert bits[..n][..n - 1] == bits[..n - 1];
    }
  }

  lemma ParityPreset()
    ensures !Parity(WordBits(PRESET))
  {
    var v := WordBits(PRESET);
    assert forall i :: 0 <= i < 16 ==> v[i];
    var half := seq(8, _ => true);
    assert v == half + half;
    ParityCat(half, half);
  }

  /** The checksum has the parity of the data. */
  lemma CrcKeepsParity(data: seq<Byte>)
    ensures Parity(WordBits(Crc(data))) == Parity(DataBits(data))
  {
    BytesAreBits(PRESET, data);
    ParityFeeds(WordBits(PRESET), DataBits(data), 8 * |data|);
    ParityPreset();
    assert DataBits(data)[..8 * |data|] == DataBits(data);
  }

  /** How many bits differ. */
  function Flips(a: Bits, b: Bits): nat
    requires |a| == |b|
  {
    if a == [] then 0
    else Flips(a[..|a| - 1], b[..|a| - 1]) + if a[|a| - 1] != b[|a| - 1] then 1 else 0
  }

  lemma {:induction false} FlipsParity(a: Bits, b: Bits)
    requires |a| == |b|
    ensures Flips(a, b) % 2 == 1 <==> Parity(a) != Parity(b)
    decreases |a|
  {
    if a != [] {
      FlipsParity(a[..|a| - 1], b[..|a| - 1]);
    }
  }

  /** If data and stored checksum together suffer an odd number of flipped bits, the stored
      checksum is wrong for the data. */
  lemma OddFlipsAreDetected(data: seq<Byte>, data': seq<Byte>, stored': Word)
    requires |data| == |data'|
    requires Flips(DataBits(data) + WordBits(Crc(data)), DataBits(data') + WordBits(stored')) % 2 == 1
    ensures stored' != Crc(data')
  {
    FlipsParity(DataBits(data) + WordBits(Crc(data)), DataBits(data') + WordBits(stored'));
    ParityCat(DataBits(data), WordBits(Crc(data)));
    ParityCat(DataBits(data'), WordBits(stored'));
    CrcKeepsParity(data);
    CrcKeepsParity(data');
  }
}
