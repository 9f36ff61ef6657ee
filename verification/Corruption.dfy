/** Frames damaged on the way: when the receive check of rf.c still passes, for frames whose length
    byte arrived intact, and what that rules out.

    The checksum is stored low byte first, so checked bytes and checksum are not one codeword of the
    generator. That costs some bursts: every burst of up to twelve bits is detected, but not every
    one of thirteen. A damaged length byte moves the checksum, and then nothing is promised. */
module Corruption {
  import opened Crc16
  import opened Escapes
  import opened Frames

  // ---------------------------------------------------------------- the check in bits

  lemma WordByteBits(w: Word, i: nat)
    requires i < 8
    ensures ByteBit(WordBytes(w)[1], i) == WordBit(w, i)
    ensures ByteBit(WordBytes(w)[0], i) == WordBit(w, i + 8)
  {
    if i == 0 {} else if i == 1 {} else if i == 2 {} else if i == 3 {}
    else if i == 4 {} else if i == 5 {} else if i == 6 {} else {}
  }

  lemma WordBytesBits(w: Word)
    ensures ByteBits(WordBytes(w)[1]) + ByteBits(WordBytes(w)[0]) == WordBits(w)
  {
    forall i | 0 <= i < 8
      ensures ByteBits(WordBytes(w)[1])[i] == WordBits(w)[i] && ByteBits(WordBytes(w)[0])[i] == WordBits(w)[i + 8]
    {
      WordByteBits(w, i);
    }
  }

  lemma WordBytesTell(a: Word, b: Word)
    requires WordBytes(a) == WordBytes(b)
    ensures a == b
  {
    WordBytesBits(a);
    WordBytesBits(b);
    WordBitsTell(a, b);
  }

  /** The stored checksum as a word. */
  function StoredBits(f: Frame): (b: Bits)
    requires InFormat(f)
    ensures |b| == 16
  {
    ByteBits(Stored(f)[1]) + ByteBits(Stored(f)[0])
  }

  lemma PassesInBits(f: Frame)
    requires InFormat(f)
    ensures Passes(f) <==> StoredBits(f) == WordBits(Crc(Covered(f)))
  {
    var b := WordBytes(Crc(Covered(f)));
    WordBytesBits(Crc(Covered(f)));
    if StoredBits(f) == ByteBits(b[1]) + ByteBits(b[0]) {
      assert StoredBits(f)[..8] == (ByteBits(b[1]) + ByteBits(b[0]))[..8];
      assert StoredBits(f)[8..] == (ByteBits(b[1]) + ByteBits(b[0]))[8..];
      ByteBitsTell(Stored(f)[1], b[1]);
      ByteBitsTell(Stored(f)[0], b[0]);
    }
  }

  lemma XorCancels(a: Bits, b: Bits, c: Bits)
    requires |a| == |b| == |c|
    ensures Xor(a, b) == Xor(a, c) <==> b == c
  {
    if Xor(a, b) == Xor(a, c) {
      forall i | 0 <= i < |b| ensures b[i] == c[i] {
        assert Xor(a, b)[i] == Xor(a, c)[i];
      }
    }
  }

  /** The differences of the covered bits and of the stored words. */
  function DataError(f: Frame, g: Frame): (d: Bits)
    requires InFormat(f) && InFormat(g) && Length(f) == Length(g)
    ensures |d| == 8 * (9 + Length(f))
  {
    Xor(DataBits(Covered(f)), DataBits(Covered(g)))
  }

  function WordError(f: Frame, g: Frame): (r: Bits)
    requires InFormat(f) && InFormat(g)
    ensures |r| == 16
  {
    Xor(StoredBits(f), StoredBits(g))
  }

  /** A damaged frame with its length byte intact passes if and only if the difference of the
      covered bytes, fed to a register preset to zero, leaves the difference of the stored words. */
  lemma PassesAgain(f: Frame, g: Frame)
    requires InFormat(f) && InFormat(g) && Length(f) == Length(g) && Passes(f)
    ensures Passes(g) <==> FeedAll(Zeros(16), DataError(f, g)) == WordError(f, g)
  {
    var a, b, v := DataBits(Covered(f)), DataBits(Covered(g)), WordBits(PRESET);
    PassesInBits(f);
    PassesInBits(g);
    BytesAreBits(PRESET, Covered(f));
    BytesAreBits(PRESET, Covered(g));
    FeedXor(v, v, a, b, |a|);
    assert Xor(v, v) == Zeros(16);
    XorCancels(StoredBits(f), StoredBits(g), WordBits(Crc(Covered(g))));
  }

  // ---------------------------------------------------------------- odd numbers of flips

  /** Covered bytes and stored checksum, in the order in which they are sent. */
  function Sent(f: Frame): (b: Bits)
    requires InFormat(f)
    ensures |b| == 8 * (11 + Length(f))
  {
    DataBits(Covered(f) + Stored(f))
  }

  lemma DataBitsOf(a: seq<Byte>, b: Byte)
    ensures DataBits(a + [b]) == DataBits(a) + ByteBits(b)
  {
    assert (a + [b])[..|a|] == a;
  }

  /** Covered bytes and stored checksum of a frame that passes have an even number of one-bits. */
  lemma PassingIsEven(f: Frame)
    requires InFormat(f) && Passes(f)
    ensures !Parity(Sent(f))
  {
    var w := Crc(Covered(f));
    var b := WordBytes(w);
    assert Covered(f) + Stored(f) == (Covered(f) + [b[0]]) + [b[1]];
    DataBitsOf(Covered(f) + [b[0]], b[1]);
    DataBitsOf(Covered(f), b[0]);
    ParityCat(DataBits(Covered(f)) + ByteBits(b[0]), ByteBits(b[1]));
    ParityCat(DataBits(Covered(f)), ByteBits(b[0]));
    ParityCat(ByteBits(b[1]), ByteBits(b[0]));
    WordBytesBits(w);
    CrcKeepsParity(Covered(f));
  }

  /** If the length byte is intact, an odd number of flipped bits across covered bytes and stored
      checksum fails the check. */
  lemma OddFlipsFail(f: Frame, g: Frame)
    requires InFormat(f) && InFormat(g) && Length(f) == Length(g) && Passes(f)
    requires Flips(Sent(f), Sent(g)) % 2 == 1
    ensures !Passes(g)
  {
    PassingIsEven(f);
    FlipsParity(Sent(f), Sent(g));
    if Passes(g) {
      PassingIsEven(g);
    }
  }

  // ---------------------------------------------------------------- bursts

  /** If length byte and stored checksum are intact, so does any change of the covered bytes within
      sixteen consecutive bits. */
  lemma BurstFails(f: Frame, g: Frame, at: nat)
    requires InFormat(f) && InFormat(g) && Length(f) == Length(g) && Passes(f)
    requires Stored(g) == Stored(f) && Covered(g) != Covered(f)
    requires Burst(DataBits(Covered(f)), DataBits(Covered(g)), at, 16)
    ensures !Passes(g)
  {
    BurstsAreDetected(Covered(f), Covered(g), at);
    if Passes(g) {
      WordBytesTell(Crc(Covered(f)), Crc(Covered(g)));
    }
  }

  lemma SentPieces(f: Frame)
    requires InFormat(f)
    ensures Sent(f) == DataBits(Covered(f)) + (ByteBits(Stored(f)[0]) + ByteBits(Stored(f)[1]))
  {
    var b := Stored(f);
    assert Covered(f) + b == (Covered(f) + [b[0]]) + [b[1]];
    DataBitsOf(Covered(f) + [b[0]], b[1]);
    DataBitsOf(Covered(f), b[0]);
  }

  lemma SentAt(f: Frame, i: nat)
    requires InFormat(f)
    ensures i < 8 * (9 + Length(f)) ==> Sent(f)[i] == DataBits(Covered(f))[i]
    ensures i < 8 ==> Sent(f)[8 * (9 + Length(f)) + i] == StoredBits(f)[8 + i]
    ensures i < 8 ==> Sent(f)[8 * (9 + Length(f)) + 8 + i] == StoredBits(f)[i]
  {
    SentPieces(f);
  }

  /** The difference of what was sent. */
  function Error(f: Frame, g: Frame): (x: Bits)
    requires InFormat(f) && InFormat(g) && Length(f) == Length(g)
    ensures |x| == 8 * (11 + Length(f))
  {
    Xor(Sent(f), Sent(g))
  }

  lemma XorAt(a: Bits, b: Bits, j: nat, s: Bits, t: Bits, i: nat)
    requires |a| == |b| && j < |a| && |s| == |t| && i < |s| && a[j] == s[i] && b[j] == t[i]
    ensures Xor(a, b)[j] == Xor(s, t)[i]
  {
  }

  /** The place of bit i of the stored word among n covered and sixteen stored bits. */
  function Place(n: nat, i: nat): nat
    requires i < 16
  {
    if i < 8 then n + 8 + i else n + i - 8
  }

  lemma SentWordAt(f: Frame, i: nat)
    requires InFormat(f) && i < 16
    ensures Sent(f)[Place(8 * (9 + Length(f)), i)] == StoredBits(f)[i]
  {
    SentAt(f, if i < 8 then i else i - 8);
  }

  lemma WordErrorAt(f: Frame, g: Frame, i: nat)
    requires InFormat(f) && InFormat(g) && Length(f) == Length(g) && i < 16
    ensures WordError(f, g)[i] == Error(f, g)[Place(8 * (9 + Length(f)), i)]
  {
    SentWordAt(f, i);
    SentWordAt(g, i);
    XorAt(Sent(f), Sent(g), Place(8 * (9 + Length(f)), i), StoredBits(f), StoredBits(g), i);
  }

  lemma ErrorPieces(f: Frame, g: Frame)
    requires InFormat(f) && InFormat(g) && Length(f) == Length(g)
    ensures var x := Error(f, g);
      x[..|x| - 16] == DataError(f, g) && AsWord(x[|x| - 16..]) == WordError(f, g)
  {
    var x := Error(f, g);
    var d, r, w := x[..|x| - 16], AsWord(x[|x| - 16..]), WordError(f, g);
    forall i | 0 <= i < |d| ensures d[i] == DataError(f, g)[i] {
      SentAt(f, i);
      SentAt(g, i);
    }
    forall i | 0 <= i < 16 ensures r[i] == w[i] {
      WordErrorAt(f, g, i);
    }
  }

  lemma PassesConsistently(f: Frame, g: Frame)
    requires InFormat(f) && InFormat(g) && Length(f) == Length(g) && Passes(f)
    ensures Passes(g) <==> Consistent(Zeros(16), Error(f, g))
  {
    PassesAgain(f, g);
    ErrorPieces(f, g);
  }

  lemma ErrorIsWithin(f: Frame, g: Frame, at: nat, width: nat)
    requires InFormat(f) && InFormat(g) && Length(f) == Length(g)
    requires Sent(f) != Sent(g) && Burst(Sent(f), Sent(g), at, width)
    ensures Within(Error(f, g), at, width) && !AllZero(Error(f, g))
  {
    var x := Error(f, g);
    var i :| 0 <= i < |x| && Sent(f)[i] != Sent(g)[i];
    assert x[i];
  }

  /** If the length byte is intact, a burst of up to sixteen bits across covered bytes and stored
      checksum passes the check if and only if it is one of twelve at the end. */
  lemma BurstPasses(f: Frame, g: Frame, at: nat)
    requires InFormat(f) && InFormat(g) && Length(f) == Length(g) && Passes(f)
    requires Sent(f) != Sent(g) && Burst(Sent(f), Sent(g), at, 16)
    ensures Passes(g) <==> EndsInEscape(Error(f, g))
  {
    PassesConsistently(f, g);
    ErrorIsWithin(f, g, at, 16);
    ShortErrorsThatPass(Zeros(16), Error(f, g), at);
  }

  /** None of up to twelve bits does. */
  lemma ShortBurstFails(f: Frame, g: Frame, at: nat)
    requires InFormat(f) && InFormat(g) && Length(f) == Length(g) && Passes(f)
    requires Sent(f) != Sent(g) && Burst(Sent(f), Sent(g), at, 12)
    ensures !Passes(g)
  {
    BurstPasses(f, g, at);
    ErrorIsWithin(f, g, at, 12);
    if EndsInEscape(Error(f, g)) {
      EscapesAreLong(Error(f, g), at);
    }
  }

  // ---------------------------------------------------------------- errors that pass

  /** The frame with another last data byte and another checksum. */
  function Patch(f: Frame, last: Byte, low: Byte, high: Byte): (g: Frame)
    requires InFormat(f) && Length(f) > 0
    ensures InFormat(g) && Length(g) == Length(f) && g[I_CMD] == f[I_CMD] && g[..I_DATA] == f[..I_DATA]
  {
    var k := I_DATA + Length(f);
    f[..k - 1] + [last, low, high] + f[k + 2..]
  }

  lemma Parts(before: seq<Byte>, x: Byte, y: Byte, z: Byte, behind: seq<Byte>, m: nat)
    requires m <= |before|
    ensures var s, k := before + [x, y, z] + behind, |before| + 1;
      s[m..k] == before[m..] + [x] && s[k] == y && s[k + 1] == z
  {
  }

  lemma PatchedBytes(f: Frame, last: Byte, low: Byte, high: Byte)
    requires InFormat(f) && Length(f) > 0
    ensures var g := Patch(f, last, low, high);
      && Covered(g) == f[..I_DATA + Length(f) - 1][I_SRC..] + [last]
      && Stored(g)[0] == low && Stored(g)[1] == high
  {
    var k := I_DATA + Length(f);
    Parts(f[..k - 1], last, low, high, f[k + 2..], I_SRC);
  }

  function Flip(b: Byte, mask: Byte): Byte {
    b ^ mask
  }

  /** The last data byte and both bytes of the checksum damaged, within thirteen bits. */
  function Escape(f: Frame): (g: Frame)
    requires InFormat(f) && Length(f) > 0
    ensures InFormat(g) && Length(g) == Length(f) && g[I_CMD] == f[I_CMD] && g[..I_DATA] == f[..I_DATA]
  {
    var k := I_DATA + Length(f);
    Patch(f, Flip(f[k - 1], 0x01), Flip(f[k], 0x21), Flip(f[k + 1], 0x10))
  }

  lemma FlippedBits(b: Byte, i: nat)
    requires i < 8
    ensures ByteBit(Flip(b, 0x01), i) == (ByteBit(b, i) != (i == 7))
    ensures ByteBit(Flip(b, 0x21), i) == (ByteBit(b, i) != (i == 2 || i == 7))
    ensures ByteBit(Flip(b, 0x10), i) == (ByteBit(b, i) != (i == 3))
  {
    if i == 0 {} else if i == 1 {} else if i == 2 {} else if i == 3 {}
    else if i == 4 {} else if i == 5 {} else if i == 6 {} else {}
  }

  /** Only the last of some bits. */
  ghost predicate LastOnly(d: Bits) {
    d != [] && forall i :: 0 <= i < |d| ==> d[i] == (i == |d| - 1)
  }

  /** The bits of the generator below its highest one. */
  ghost predicate Taps(r: Bits) {
    |r| == 16 && forall i :: 0 <= i < 16 ==> r[i] == (i == 3 || i == 10 || i == 15)
  }

  /** Its parts in the low and in the high byte. */
  ghost predicate LowTaps(r: Bits) {
    |r| == 8 && forall i :: 0 <= i < 8 ==> r[i] == (i == 2 || i == 7)
  }

  ghost predicate HighTap(r: Bits) {
    |r| == 8 && forall i :: 0 <= i < 8 ==> r[i] == (i == 3)
  }

  lemma DataFlips(f: Frame, g: Frame, rest: seq<Byte>, last: Byte, last': Byte)
    requires InFormat(f) && InFormat(g) && Length(f) == Length(g)
    requires Covered(f) == rest + [last] && Covered(g) == rest + [last']
    requires LastOnly(Xor(ByteBits(last), ByteBits(last')))
    ensures LastOnly(DataError(f, g))
  {
    var d := DataError(f, g);
    DataBitsOf(rest, last);
    DataBitsOf(rest, last');
    forall i | 0 <= i < |d| ensures d[i] == (i == |d| - 1) {
      if i >= |d| - 8 {
        assert d[i] == Xor(ByteBits(last), ByteBits(last'))[i - (|d| - 8)];
      }
    }
  }

  lemma WordFlips(f: Frame, g: Frame)
    requires InFormat(f) && InFormat(g)
    requires LowTaps(Xor(ByteBits(Stored(f)[0]), ByteBits(Stored(g)[0])))
    requires HighTap(Xor(ByteBits(Stored(f)[1]), ByteBits(Stored(g)[1])))
    ensures Taps(WordError(f, g))
  {
    var r := WordError(f, g);
    forall i | 0 <= i < 16 ensures r[i] == (i == 3 || i == 10 || i == 15) {
      if i < 8 {
        assert r[i] == Xor(ByteBits(Stored(f)[1]), ByteBits(Stored(g)[1]))[i];
      } else {
        assert r[i] == Xor(ByteBits(Stored(f)[0]), ByteBits(Stored(g)[0]))[i - 8];
      }
    }
  }

  lemma PatchErrors(f: Frame, last: Byte, low: Byte, high: Byte)
    requires InFormat(f) && Length(f) > 0
    requires LastOnly(Xor(ByteBits(f[I_DATA + Length(f) - 1]), ByteBits(last)))
    requires LowTaps(Xor(ByteBits(f[I_DATA + Length(f)]), ByteBits(low)))
    requires HighTap(Xor(ByteBits(f[I_DATA + Length(f) + 1]), ByteBits(high)))
    ensures var g := Patch(f, last, low, high);
      LastOnly(DataError(f, g)) && Taps(WordError(f, g))
  {
    var k := I_DATA + Length(f);
    var rest := f[..k - 1][I_SRC..];
    assert Covered(f) == rest + [f[k - 1]];
    PatchedBytes(f, last, low, high);
    DataFlips(f, Patch(f, last, low, high), rest, f[k - 1], last);
    WordFlips(f, Patch(f, last, low, high));
  }

  lemma FlippedByte(b: Byte)
    ensures LastOnly(Xor(ByteBits(b), ByteBits(Flip(b, 0x01))))
    ensures LowTaps(Xor(ByteBits(b), ByteBits(Flip(b, 0x21))))
    ensures HighTap(Xor(ByteBits(b), ByteBits(Flip(b, 0x10))))
  {
    var x, y, z := Xor(ByteBits(b), ByteBits(Flip(b, 0x01))), Xor(ByteBits(b), ByteBits(Flip(b, 0x21))),
                   Xor(ByteBits(b), ByteBits(Flip(b, 0x10)));
    forall i | 0 <= i < 8
      ensures x[i] == (i == 7) && y[i] == (i == 2 || i == 7) && z[i] == (i == 3)
    {
      FlippedBits(b, i);
    }
  }

  lemma EscapeErrors(f: Frame)
    requires InFormat(f) && Length(f) > 0
    ensures LastOnly(DataError(f, Escape(f))) && Taps(WordError(f, Escape(f)))
  {
    var k := I_DATA + Length(f);
    FlippedByte(f[k - 1]);
    FlippedByte(f[k]);
    FlippedByte(f[k + 1]);
    PatchErrors(f, Flip(f[k - 1], 0x01), Flip(f[k], 0x21), Flip(f[k + 1], 0x10));
  }

  /** A last bit by itself leaves the generator in the register. */
  lemma LastBitOnly(z: Bits, d: Bits, r: Bits)
    requires |z| == 16 && AllZero(z) && LastOnly(d) && Taps(r)
    ensures FeedAll(z, d) == r
  {
    ZerosStay(z, d, |d| - 1);
    assert FeedAll(z, d) == Feed(z, true);
  }

  lemma EscapeIsShort(f: Frame, g: Frame)
    requires InFormat(f) && InFormat(g) && Length(f) == Length(g)
    requires LastOnly(DataError(f, g)) && Taps(WordError(f, g))
    ensures Sent(g) != Sent(f) && Burst(Sent(f), Sent(g), 8 * (9 + Length(f)) - 1, 13)
  {
    var n := 8 * (9 + Length(f));
    forall i | 0 <= i < n + 16 && Sent(f)[i] != Sent(g)[i] ensures n - 1 <= i < n + 12 {
      var j := if i < n then i else if i < n + 8 then i - n else i - n - 8;
      SentAt(f, j);
      SentAt(g, j);
      assert i >= n + 8 ==> WordError(f, g)[j];
    }
    SentAt(f, n - 1);
    SentAt(g, n - 1);
    assert DataError(f, g)[n - 1];
  }

  /** Twelve is as far as it goes: every frame with data that passes has a damaged twin within
      thirteen bits that passes too. */
  lemma ThirteenBitsEscape(f: Frame)
    requires InFormat(f) && Length(f) > 0 && Passes(f)
    ensures Passes(Escape(f)) && Sent(Escape(f)) != Sent(f)
    ensures Burst(Sent(f), Sent(Escape(f)), 8 * (9 + Length(f)) - 1, 13)
  {
    var g := Escape(f);
    EscapeErrors(f);
    LastBitOnly(Zeros(16), DataError(f, g), WordError(f, g));
    PassesAgain(f, g);
    EscapeIsShort(f, g);
  }

  lemma OneByteMore(data: seq<Byte>, d: Byte, crc: Word, next: Word)
    requires Crc(data) == crc && Step(crc, d) == next
    ensures Crc(data + [d]) == next
  {
    assert (data + [d])[..|data|] == data;
  }

  /** From the source address 1 to the command. */
  function PollHeader(): (h: seq<Byte>)
    ensures |h| == 8
  {
    [1, 0, 0, 0] + [0, 0, 0xAB, C_POLL]
  }

  /** A poll without data, and the same with one bit of its length byte flipped. */
  function Poll(length: Byte): (f: Frame)
    ensures f[I_SRC..I_CTRL] == [1, 0, 0, 0] && f[I_CTRL] == 0 && f[I_CMD] == C_POLL && f[I_LEN] == length
    ensures f[I_SRC..I_LEN] == PollHeader()
    ensures f[I_DATA] == 0x51 && f[I_DATA + 1] == 0x5A && f[I_DATA + 2] == 0xD3
  {
    Repeat(0, 4) + PollHeader() + [length, 0x51, 0x5A, 0xD3] + Repeat(0, 9)
  }

  lemma {:induction false} ZeroBytes(b: seq<Byte>)
    requires forall i :: 0 <= i < |b| ==> b[i] == 0
    ensures NumberOf(b) == 0
    decreases |b|
  {
    if b != [] {
      ZeroBytes(b[1..]);
    }
  }

  lemma PollSource(length: Byte)
    ensures U32Of(Poll(length)[I_SRC..I_CTRL]) == 1
  {
    var b := Poll(length)[I_SRC..I_CTRL];
    assert b[1..] == [0, 0, 0];
    ZeroBytes(b[1..]);
  }

  lemma PollHeaderCrc()
    ensures Crc(PollHeader()) == 0x7644
  {
    var s0: seq<Byte> := [];
    var s1 := s0 + [1];
    var s2 := s1 + [0];
    var s3 := s2 + [0];
    var s4 := s3 + [0];
    var s5 := s4 + [0];
    var s6 := s5 + [0];
    var s7 := s6 + [0xAB];
    OneByteMore(s0, 1, 0xFFFF, 0xF1D1);
    OneByteMore(s1, 0, 0xF1D1, 0x2E3E);
    OneByteMore(s2, 0, 0x2E3E, 0xFBAC);
    OneByteMore(s3, 0, 0xFBAC, 0xF274);
    OneByteMore(s4, 0, 0xF274, 0xBB5D);
    OneByteMore(s5, 0, 0xBB5D, 0x4BB0);
    OneByteMore(s6, 0xAB, 0x4BB0, 0x4D2E);
    OneByteMore(s7, C_POLL, 0x4D2E, 0x7644);
    assert PollHeader() == s7 + [C_POLL];
  }

  /** One flipped bit can pass, if it is in the length byte. */
  lemma OneFlipInTheLengthEscapes()
    ensures InFormat(Poll(0)) && InFormat(Poll(1)) && Poll(1) == Poll(0)[I_LEN := Poll(0)[I_LEN] ^ 0x01]
    ensures Passes(Poll(0)) && Passes(Poll(1))
  {
    var header, f, g := PollHeader(), Poll(0), Poll(1);
    PollHeaderCrc();
    OneByteMore(header, 0, 0x7644, 0x5A51);
    assert Covered(f) == f[I_SRC..I_LEN] + [f[I_LEN]];
    assert Stored(f) == [f[I_DATA], f[I_DATA + 1]];
    OneByteMore(header, 1, 0x7644, 0x4A70);
    OneByteMore(header + [1], 0x51, 0x4A70, 0xD35A);
    assert Covered(g) == f[I_SRC..I_LEN] + [g[I_LEN]] + [g[I_DATA]];
    assert Stored(g) == [g[I_DATA + 1], g[I_DATA + 2]];
  }
}
