/** Which short errors the check of rf.c lets pass, in bits: a difference of covered bits followed by
    the difference of the stored checksum, whose low byte comes first. */
module Escapes {
  import opened Crc16

  // ---------------------------------------------------------------- the register by quotient bits

  /** The quotient bits of the division: what each feed takes out at the front of the register. */
  function Quotient(z: Bits, e: Bits): (y: Bits)
    requires |z| == 16
    ensures |y| == |e|
  {
    seq(|e|, j requires 0 <= j < |e| => FeedTo(z, e, j)[0] != e[j])
  }

  /** The quotient bit that entered the register at place t and has moved to place i since, if any. */
  predicate Moved(y: Bits, k: nat, i: nat, t: nat)
    requires k <= |y|
  {
    i <= t < i + k && y[i + k - 1 - t]
  }

  predicate Trace(y: Bits, k: nat, i: nat)
    requires k <= |y|
  {
    (Moved(y, k, i, 3) != Moved(y, k, i, 10)) != Moved(y, k, i, 15)
  }

  lemma TraceMoves(v: Bits, b: bool, y: Bits, k: nat, i: nat)
    requires |v| == 16 && i < 16 && 0 < k <= |y| && y[k - 1] == (v[0] != b)
    requires i < 15 ==> v[i + 1] == Trace(y, k - 1, i + 1)
    ensures Feed(v, b)[i] == Trace(y, k, i)
  {
    if i == 3 {} else if i == 10 {} else if i == 15 {} else {}
  }

  /** Place i of a register that was preset to zero, after k feeds. */
  lemma {:induction false} RegisterTraces(z: Bits, e: Bits, k: nat, i: nat)
    requires |z| == 16 && AllZero(z) && k <= |e| && i < 16
    ensures FeedTo(z, e, k)[i] == Trace(Quotient(z, e), k, i)
    decreases k
  {
    if k > 0 {
      if i < 15 {
        RegisterTraces(z, e, k - 1, i + 1);
      }
      TraceMoves(FeedTo(z, e, k - 1), e[k - 1], Quotient(z, e), k, i);
    }
  }

  lemma QuotientTraces(z: Bits, e: Bits, j: nat)
    requires |z| == 16 && AllZero(z) && j < |e|
    ensures e[j] == (Quotient(z, e)[j] != Trace(Quotient(z, e), j, 0))
  {
    RegisterTraces(z, e, j, 0);
  }

  // ---------------------------------------------------------------- the last 32 bits

  /** The sixteen last covered bits in terms of their quotient bits. */
  predicate Divided(y: Bits, x: Bits)
    requires |y| == 16 && |x| == 32
  {
    && x[0] == y[0] && x[1] == y[1] && x[2] == y[2] && x[3] == y[3]
    && x[4] == (y[4] != y[0]) && x[5] == (y[5] != y[1]) && x[6] == (y[6] != y[2]) && x[7] == (y[7] != y[3])
    && x[8] == (y[8] != y[4]) && x[9] == (y[9] != y[5]) && x[10] == (y[10] != y[6])
    && x[11] == ((y[11] != y[7]) != y[0]) && x[12] == ((y[12] != y[8]) != y[1])
    && x[13] == ((y[13] != y[9]) != y[2]) && x[14] == ((y[14] != y[10]) != y[3])
    && x[15] == ((y[15] != y[11]) != y[4])
  }

  /** The stored bits as the register that they leave, low byte first. */
  predicate Left(y: Bits, x: Bits)
    requires |y| == 16 && |x| == 32
  {
    && x[16] == (y[8] != y[13]) && x[17] == (y[9] != y[14]) && x[18] == (y[10] != y[15]) && x[19] == y[11]
    && x[20] == y[12] && x[21] == y[13] && x[22] == y[14] && x[23] == y[15]
    && x[24] == ((y[0] != y[5]) != y[12]) && x[25] == ((y[1] != y[6]) != y[13])
    && x[26] == ((y[2] != y[7]) != y[14]) && x[27] == ((y[3] != y[8]) != y[15])
    && x[28] == (y[4] != y[9]) && x[29] == (y[5] != y[10]) && x[30] == (y[6] != y[11]) && x[31] == (y[7] != y[12])
  }

  /** Stored bits, read as a word. */
  function AsWord(s: Bits): (r: Bits)
    requires |s| == 16
    ensures |r| == 16
  {
    s[8..] + s[..8]
  }

  lemma TailDivided(z: Bits, x: Bits)
    requires |z| == 16 && AllZero(z) && |x| == 32
    ensures Divided(Quotient(z, x[..16]), x)
  {
    var e := x[..16];
    var y := Quotient(z, e);
    forall j | 0 <= j < 16 ensures x[j] == (y[j] != Trace(y, j, 0)) {
      QuotientTraces(z, e, j);
    }
  }

  /** The same by places of the register. */
  ghost predicate LeftAt(y: Bits, x: Bits, i: nat)
    requires |y| == 16 && |x| == 32 && i < 16
  {
    AsWord(x[16..])[i] == Trace(y, 16, i)
  }

  lemma LeftByPlaces(y: Bits, x: Bits)
    requires |y| == 16 && |x| == 32
    requires forall i :: 0 <= i < 16 ==> LeftAt(y, x, i)
    ensures Left(y, x)
  {
    assert LeftAt(y, x, 0) && LeftAt(y, x, 1) && LeftAt(y, x, 2) && LeftAt(y, x, 3);
    assert LeftAt(y, x, 4) && LeftAt(y, x, 5) && LeftAt(y, x, 6) && LeftAt(y, x, 7);
    assert LeftAt(y, x, 8) && LeftAt(y, x, 9) && LeftAt(y, x, 10) && LeftAt(y, x, 11);
    assert LeftAt(y, x, 12) && LeftAt(y, x, 13) && LeftAt(y, x, 14) && LeftAt(y, x, 15);
  }

  lemma LeftUnique(y: Bits, x: Bits, x': Bits, i: nat)
    requires |y| == 16 && |x| == 32 && |x'| == 32 && Left(y, x) && Left(y, x') && 16 <= i < 32
    ensures x[i] == x'[i]
  {
    if i == 16 {} else if i == 17 {} else if i == 18 {} else if i == 19 {}
    else if i == 20 {} else if i == 21 {} else if i == 22 {} else if i == 23 {}
    else if i == 24 {} else if i == 25 {} else if i == 26 {} else if i == 27 {}
    else if i == 28 {} else if i == 29 {} else if i == 30 {} else {}
  }

  /** The register that the sixteen bits leave is the stored word if and only if the stored bits are
      those above. */
  lemma TailLeft(z: Bits, x: Bits, y: Bits)
    requires |z| == 16 && AllZero(z) && |x| == 32 && y == Quotient(z, x[..16])
    ensures FeedAll(z, x[..16]) == AsWord(x[16..]) <==> Left(y, x)
  {
    var e, w := x[..16], FeedAll(z, x[..16]);
    var x' := e + (w[8..] + w[..8]);
    assert AsWord(x'[16..]) == w;
    forall i | 0 <= i < 16 ensures LeftAt(y, x', i) {
      RegisterTraces(z, e, 16, i);
    }
    LeftByPlaces(y, x');
    if w == AsWord(x[16..]) {
      assert x' == x;
    }
    if Left(y, x) {
      forall i | 16 <= i < 32 ensures x[i] == x'[i] {
        LeftUnique(y, x, x', i);
      }
      assert x[16..] == x'[16..];
    }
  }

  /** The twelve errors within sixteen bits that pass, as places in the last 32 bits: combinations of
      the last three data bits, and five that reach back further. */
  predicate InEscape(k: nat, i: nat) {
    match k
    case 0 => i == 13 || i == 16 || i == 21 || i == 25
    case 1 => i == 14 || i == 17 || i == 22 || i == 26
    case 2 => i == 15 || i == 18 || i == 23 || i == 27
    case 3 => i == 13 || i == 14 || i == 16 || i == 17 || i == 21 || i == 22 || i == 25 || i == 26
    case 4 => i == 14 || i == 15 || i == 17 || i == 18 || i == 22 || i == 23 || i == 26 || i == 27
    case 5 => i == 13 || i == 15 || i == 16 || i == 18 || i == 21 || i == 23 || i == 25 || i == 27
    case 6 => 13 <= i <= 18 || 21 <= i <= 23 || 25 <= i <= 27
    case 7 => i == 3 || i == 7 || i == 8 || i == 12 || i == 14 || i == 16
    case 8 => i == 4 || i == 8 || i == 9 || i == 13 || i == 15 || i == 17
    case 9 => i == 3 || i == 4 || i == 7 || i == 9 || 12 <= i <= 17
    case 10 => i == 8 || i == 12 || i == 15 || i == 16 || i == 18 || i == 23
    case 11 => i == 6 || i == 10 || i == 11 || i == 13 || i == 15 || i == 16 || i == 19 || i == 21
    case _ => false
  }

  predicate IsEscape(x: Bits, k: nat)
    requires |x| == 32
  {
    forall i :: 0 <= i < 32 ==> x[i] == InEscape(k, i)
  }

  ghost predicate IsOneOfTwelve(x: Bits)
    requires |x| == 32
  {
    exists k: nat :: k < 12 && IsEscape(x, k)
  }

  lemma EscapeLeaves(y: Bits, x: Bits, k: nat)
    requires |y| == 16 && |x| == 32 && Divided(y, x) && k < 12 && IsEscape(x, k)
    ensures Left(y, x)
  {
    if k == 0 {} else if k == 1 {} else if k == 2 {} else if k == 3 {} else if k == 4 {} else if k == 5 {}
    else if k == 6 {} else if k == 7 {} else if k == 8 {} else if k == 9 {} else if k == 10 {} else {}
  }

  /** All one-bits lie within `width` places from `at` on. */
  predicate Within(x: Bits, at: nat, width: nat) {
    forall i :: 0 <= i < |x| && x[i] ==> at <= i < at + width
  }

  /** Bits sixteen or more places apart are not both set. */
  predicate Near(x: Bits)
    requires |x| == 32
  {
    forall i, j :: 0 <= i < j < 32 && x[i] && x[j] ==> j < i + 16
  }

  predicate Spelled(x: Bits, k: nat)
    requires |x| == 32
  {
    && x[0] == InEscape(k, 0) && x[1] == InEscape(k, 1) && x[2] == InEscape(k, 2) && x[3] == InEscape(k, 3)
    && x[4] == InEscape(k, 4) && x[5] == InEscape(k, 5) && x[6] == InEscape(k, 6) && x[7] == InEscape(k, 7)
    && x[8] == InEscape(k, 8) && x[9] == InEscape(k, 9) && x[10] == InEscape(k, 10) && x[11] == InEscape(k, 11)
    && x[12] == InEscape(k, 12) && x[13] == InEscape(k, 13) && x[14] == InEscape(k, 14) && x[15] == InEscape(k, 15)
    && x[16] == InEscape(k, 16) && x[17] == InEscape(k, 17) && x[18] == InEscape(k, 18) && x[19] == InEscape(k, 19)
    && x[20] == InEscape(k, 20) && x[21] == InEscape(k, 21) && x[22] == InEscape(k, 22) && x[23] == InEscape(k, 23)
    && x[24] == InEscape(k, 24) && x[25] == InEscape(k, 25) && x[26] == InEscape(k, 26) && x[27] == InEscape(k, 27)
    && x[28] == InEscape(k, 28) && x[29] == InEscape(k, 29) && x[30] == InEscape(k, 30) && x[31] == InEscape(k, 31)
  }

  /** No other short error does: the first quotient bits that are set tell which one it is. */
  lemma NoOtherEscape(y: Bits, x: Bits) returns (k: nat)
    requires |y| == 16 && |x| == 32 && Divided(y, x) && Left(y, x) && Near(x) && !AllZero(y)
    ensures k < 12 && Spelled(x, k)
  {
    k := if y[3] then (if y[4] then 9 else 7)
      else if y[4] then 8
      else if y[6] then 11
      else if y[8] then 10
      else if y[13] then (if y[14] then (if y[15] then 6 else 3) else if y[15] then 5 else 0)
      else if y[14] then (if y[15] then 4 else 1)
      else 2;
  }

  lemma SpelledOut(x: Bits, k: nat, i: nat)
    requires |x| == 32 && Spelled(x, k) && i < 32
    ensures x[i] == InEscape(k, i)
  {
  }

  lemma NoQuotient(y: Bits, x: Bits, i: nat)
    requires |y| == 16 && |x| == 32 && Divided(y, x) && Left(y, x) && AllZero(y) && i < 32
    ensures !x[i]
  {
  }

  lemma TailEscapes(z: Bits, x: Bits)
    requires |z| == 16 && AllZero(z) && |x| == 32 && Near(x) && !AllZero(x)
    requires FeedAll(z, x[..16]) == AsWord(x[16..])
    ensures IsOneOfTwelve(x)
  {
    var y := Quotient(z, x[..16]);
    TailDivided(z, x);
    TailLeft(z, x, y);
    if AllZero(y) {
      forall i | 0 <= i < 32 ensures !x[i] {
        NoQuotient(y, x, i);
      }
    }
    var k := NoOtherEscape(y, x);
    assert IsEscape(x, k) by {
      forall i | 0 <= i < 32 ensures x[i] == InEscape(k, i) {
        SpelledOut(x, k, i);
      }
    }
  }

  // ---------------------------------------------------------------- errors of any length

  /** The covered bits leave, in a register preset to zero, the stored word. */
  predicate Consistent(z: Bits, x: Bits)
    requires |z| == 16 && |x| >= 16
  {
    FeedAll(z, x[..|x| - 16]) == AsWord(x[|x| - 16..])
  }

  /** An error in the last 32 bits only, and one of the twelve. */
  ghost predicate EndsInEscape(x: Bits)
    requires |x| >= 32
  {
    AllZero(x[..|x| - 32]) && IsOneOfTwelve(x[|x| - 32..])
  }

  lemma TailDecides(z: Bits, x: Bits)
    requires |z| == 16 && AllZero(z) && |x| >= 32 && AllZero(x[..|x| - 32])
    ensures var tail := x[|x| - 32..];
      Consistent(z, x) <==> FeedAll(z, tail[..16]) == AsWord(tail[16..])
  {
    var n := |x| - 32;
    var before, tail := x[..n], x[n..];
    assert x[..n + 16] == before + tail[..16];
    assert x[n + 16..] == tail[16..];
    FeedCat(z, before, tail[..16], 16);
    ZerosStay(z, before, n);
  }

  lemma EscapesAreConsistent(z: Bits, x: Bits)
    requires |z| == 16 && AllZero(z) && |x| >= 32 && EndsInEscape(x)
    ensures Consistent(z, x)
  {
    var tail := x[|x| - 32..];
    var k: nat :| k < 12 && IsEscape(tail, k);
    TailDecides(z, x);
    TailDivided(z, tail);
    EscapeLeaves(Quotient(z, tail[..16]), tail, k);
    TailLeft(z, tail, Quotient(z, tail[..16]));
  }

  lemma StoredIsTouched(z: Bits, x: Bits, at: nat) returns (j: nat)
    requires |z| == 16 && AllZero(z) && |x| >= 32 && Within(x, at, 16) && !AllZero(x) && Consistent(z, x)
    ensures |x| - 16 <= j < |x| && x[j]
  {
    var d, s := x[..|x| - 16], x[|x| - 16..];
    if AllZero(s) {
      assert AllZero(AsWord(s));
      BurstCore(z, d, if at <= |d| then at else |d|);
      forall i | 0 <= i < |x| ensures !x[i] {
        assert x[i] == if i < |d| then d[i] else s[i - |d|];
      }
    }
    var i :| 0 <= i < 16 && s[i];
    j := |x| - 16 + i;
  }

  /** An error within sixteen bits passes if and only if it is one of the twelve at the end. */
  lemma ShortErrorsThatPass(z: Bits, x: Bits, at: nat)
    requires |z| == 16 && AllZero(z) && |x| >= 32 && Within(x, at, 16) && !AllZero(x)
    ensures Consistent(z, x) <==> EndsInEscape(x)
  {
    if Consistent(z, x) {
      var j := StoredIsTouched(z, x, at);
      var n := |x| - 32;
      var tail := x[n..];
      assert tail[j - n];
      TailDecides(z, x);
      TailEscapes(z, tail);
    }
    if EndsInEscape(x) {
      EscapesAreConsistent(z, x);
    }
  }

  /** Two set bits of an error, twelve or more places apart. */
  function Ends(k: nat): (p: (nat, nat))
    ensures k < 12 ==> p.0 + 12 <= p.1 < 32 && InEscape(k, p.0) && InEscape(k, p.1)
  {
    match k
    case 0 => (13, 25)
    case 1 => (14, 26)
    case 2 => (15, 27)
    case 3 => (13, 26)
    case 4 => (14, 27)
    case 5 => (13, 27)
    case 6 => (13, 27)
    case 7 => (3, 16)
    case 8 => (4, 17)
    case 9 => (3, 17)
    case 10 => (8, 23)
    case _ => (6, 21)
  }

  /** None of the twelve fits into twelve bits. */
  lemma EscapesAreLong(x: Bits, at: nat)
    requires |x| >= 32 && EndsInEscape(x)
    ensures !Within(x, at, 12)
  {
    var n := |x| - 32;
    var k: nat :| k < 12 && IsEscape(x[n..], k);
    var p := Ends(k);
    assert x[n..][p.0] && x[n..][p.1];
    assert x[n + p.0] && x[n + p.1];
  }
}
