/** The 25-byte radio frames of rf.c: sealing (checksum, then encryption of the 16-byte window from
    the counter on), opening, and the answer a gateway gives. AES is an abstract pair of functions
    that undo each other. */
module Frames {
  import opened CTypes
  import opened Crc16

  const MAX_PACKET_LEN := 256
  const SIZE := 25
  const I_DST := 0
  const I_SRC := 4
  const I_CTRL := 8
  const I_CTR := 9
  const I_RND := 10
  const I_CMD := 11
  const I_LEN := 12
  const I_DATA := 13

  const C_DISCOVER: Byte := 0x01
  const C_DISCOVER_RESP: Byte := 0x81
  const C_READ_REG: Byte := 0x02
  const C_RW_RESP: Byte := 0x82
  const C_WRITE_REG: Byte := 0x03
  const C_NOTIFY: Byte := 0x84
  const C_ACK: Byte := 0x04
  const C_POLL: Byte := 0x85

  type Frame = f: seq<Byte> | |f| == SIZE witness seq(25, _ => 0)

  // ---------------------------------------------------------------- integers in memory

  lemma Successor(b: Byte)
    requires b < 255
    ensures (b + 1) as nat == b as nat + 1
  {
  }

  lemma CastBack(b: Byte)
    ensures (b as nat) as Byte == b
  {
  }

  lemma Successive(b: Byte, n: nat)
    requires b as nat == n < 255
    ensures b < 255
  {
  }

  /** The n-th byte, by counting. */
  function Count(n: nat): (b: Byte)
    requires n < 0x100
    ensures b as nat == n
  {
    if n == 0 then 0
    else
      var p := Count(n - 1);
      Successive(p, n - 1);
      Successor(p);
      p + 1
  }

  function LowByte(n: nat): Byte {
    (n % 0x100) as Byte
  }

  lemma LowByteIs(n: nat)
    ensures LowByte(n) as nat == n % 0x100
  {
    CastBack(Count(n % 0x100));
  }

  /** The n low bytes of a number, least significant first. */
  function LowBytes(a: nat, n: nat): (b: seq<Byte>)
    ensures |b| == n
  {
    if n == 0 then [] else [LowByte(a)] + LowBytes(a / 0x100, n - 1)
  }

  function NumberOf(b: seq<Byte>): (a: nat)
    ensures a < Bound(|b|)
  {
    if b == [] then 0 else b[0] as nat + 0x100 * NumberOf(b[1..])
  }

  function Bound(n: nat): nat {
    if n == 0 then 1 else 0x100 * Bound(n - 1)
  }

  lemma {:induction false} NumberOfLowBytes(a: nat, n: nat)
    requires a < Bound(n)
    ensures NumberOf(LowBytes(a, n)) == a
    decreases n
  {
    if n > 0 {
      LowByteIs(a);
      NumberOfLowBytes(a / 0x100, n - 1);
      assert LowBytes(a, n)[1..] == LowBytes(a / 0x100, n - 1);
    }
  }

  lemma Bound32()
    ensures Bound(4) == 0x1_0000_0000
  {
    assert Bound(2) == 0x1_0000;
  }

  /** A `uint32_t` in memory, on a little-endian machine. */
  function BytesOf(a: U32): (b: seq<Byte>)
    ensures |b| == 4
  {
    LowBytes(a, 4)
  }

  function U32Of(b: seq<Byte>): U32
    requires |b| == 4
  {
    Bound32();
    NumberOf(b)
  }

  lemma U32InMemory(a: U32)
    ensures U32Of(BytesOf(a)) == a
  {
    Bound32();
    NumberOfLowBytes(a, 4);
  }

  /** A `uint16_t` in memory. */
  function WordBytes(w: Word): (b: seq<Byte>)
    ensures |b| == 2
  {
    [(w & 0xFF) as Byte, (w >> 8) as Byte]
  }

  // ---------------------------------------------------------------- sealing and opening

  /** The key and iv of a device. */
  datatype Secret = Secret(key: seq<Byte>, iv: seq<Byte>)

  datatype Cipher = Cipher(enc: (Secret, seq<Byte>) -> seq<Byte>, dec: (Secret, seq<Byte>) -> seq<Byte>)

  /** Both directions keep the length of a 16-byte window and undo each other. */
  ghost predicate Sound(c: Cipher) {
    forall s: Secret, d: seq<Byte> | |d| == 16 ::
      && |c.enc(s, d)| == 16 && |c.dec(s, d)| == 16
      && c.dec(s, c.enc(s, d)) == d && c.enc(s, c.dec(s, d)) == d
  }

  function Length(f: Frame): nat {
    f[I_LEN] as nat
  }

  /** The data and the checksum fit the encrypted window. */
  predicate InFormat(f: Frame) {
    Length(f) <= 10
  }

  predicate IsEncrypted(f: Frame) {
    f[I_CTRL] & 0x80 != 0
  }

  /** What the checksum covers: everything from the source address to the end of the data. */
  function Covered(f: Frame): seq<Byte>
    requires InFormat(f)
  {
    f[I_SRC..I_DATA + Length(f)]
  }

  function Stored(f: Frame): (b: seq<Byte>)
    requires InFormat(f)
    ensures |b| == 2
  {
    f[I_DATA + Length(f)..I_DATA + Length(f) + 2]
  }

  function WithChecksum(f: Frame): Frame
    requires InFormat(f)
  {
    f[..I_DATA + Length(f)] + WordBytes(Crc(Covered(f))) + f[I_DATA + Length(f) + 2..]
  }

  /** The receive check. */
  predicate Passes(f: Frame)
    requires InFormat(f)
  {
    Stored(f) == WordBytes(Crc(Covered(f)))
  }

  function Encrypt(f: Frame, s: Secret, c: Cipher): seq<Byte> {
    if IsEncrypted(f) then f[..I_CTR] + c.enc(s, f[I_CTR..]) else f
  }

  function Decrypt(f: Frame, s: Secret, c: Cipher): seq<Byte> {
    if IsEncrypted(f) then f[..I_CTR] + c.dec(s, f[I_CTR..]) else f
  }

  function Seal(f: Frame, s: Secret, c: Cipher): seq<Byte>
    requires InFormat(f)
  {
    Encrypt(WithChecksum(f), s, c)
  }

  lemma DecryptEncrypts(f: Frame, s: Secret, c: Cipher)
    requires Sound(c)
    ensures |Encrypt(f, s, c)| == SIZE
    ensures Encrypt(f, s, c)[..I_CTR] == f[..I_CTR]
    ensures Decrypt(Encrypt(f, s, c), s, c) == f
  {
    var g := Encrypt(f, s, c);
    assert |f[I_CTR..]| == 16;
    assert f == f[..I_CTR] + f[I_CTR..];
    if IsEncrypted(f) {
      assert g[I_CTRL] == f[..I_CTR][I_CTRL];
      assert g[I_CTR..] == c.enc(s, f[I_CTR..]);
    }
  }

  lemma ChecksumPasses(f: Frame)
    requires InFormat(f)
    ensures var g := WithChecksum(f);
      && InFormat(g) && Passes(g)
      && Covered(g) == Covered(f)
      && g[..I_DATA + Length(f)] == f[..I_DATA + Length(f)]
  {
    var g := WithChecksum(f);
    var n := I_DATA + Length(f);
    assert g[I_LEN] == f[..n][I_LEN];
    assert g[..n] == f[..n];
    assert Covered(g) == g[..n][I_SRC..] == f[..n][I_SRC..];
    assert Stored(g) == WordBytes(Crc(Covered(f)));
  }

  /** A receiver that holds the sender's key and iv opens a sealed frame: the checksum is right,
      and addresses, control, counter, random byte, command, length and data are the sender's. */
  lemma OpensWhatWasSealed(f: Frame, s: Secret, c: Cipher)
    requires InFormat(f) && Sound(c)
    ensures |Seal(f, s, c)| == SIZE && Seal(f, s, c)[..I_CTR] == f[..I_CTR]
    ensures var g := Decrypt(Seal(f, s, c), s, c);
      && g == WithChecksum(f) && InFormat(g) && Passes(g)
      && g[..I_DATA + Length(f)] == f[..I_DATA + Length(f)]
  {
    ChecksumPasses(f);
    DecryptEncrypts(WithChecksum(f), s, c);
    assert WithChecksum(f)[..I_CTR] == WithChecksum(f)[..I_DATA + Length(f)][..I_CTR];
    assert f[..I_CTR] == f[..I_DATA + Length(f)][..I_CTR];
  }

  // ---------------------------------------------------------------- answers

  /** What a command is answered with: a command, and `length` data bytes `fill`. */
  datatype Answer = Answer(command: Byte, length: nat, fill: Byte) | Silence

  /** The command switch of `rfRecvThread`, with the packet queue empty. */
  function AnswerTo(command: Byte): (a: Answer)
    ensures a.Answer? ==> a.length <= 4
  {
    if command == C_DISCOVER then Answer(C_DISCOVER_RESP, 4, 0x11)
    else if command == C_READ_REG then Answer(C_RW_RESP, 4, 0x22)
    else if command == C_WRITE_REG then Answer(C_RW_RESP, 4, 0x33)
    else if command == C_NOTIFY then Answer(C_ACK, 4, 0x44)
    else if command == C_POLL then Answer(C_ACK, 0, 0)
    else Silence
  }

  /** Answers are never answered. */
  lemma AnswersAreFinal(command: Byte)
    requires AnswerTo(command).Answer?
    ensures AnswerTo(AnswerTo(command).command) == Silence
  {
  }

  function SmallByte(n: nat): (b: Byte)
    requires n <= 4
    ensures b as nat == n
  {
    if n == 0 then 0 else if n == 1 then 1 else if n == 2 then 2 else if n == 3 then 3 else 4
  }

  function Repeat(b: Byte, n: nat): (s: seq<Byte>)
    ensures |s| == n && forall i :: 0 <= i < n ==> s[i] == b
  {
    seq(n, _ => b)
  }

  /** The reply before it is sealed: to the sender of f, from address `me`. */
  function Reply(f: Frame, me: U32, random: Byte, a: Answer): (r: Frame)
    requires a.Answer? && a.length <= 4
    ensures InFormat(r) && r[I_CMD] == a.command
    ensures r[I_DST..I_SRC] == f[I_SRC..I_CTRL] && r[I_SRC..I_CTRL] == BytesOf(me)
  {
    f[I_SRC..I_CTRL] + BytesOf(me)
    + [if IsEncrypted(f) then 0x80 else 0, f[I_CTR] | 0x80, random, a.command, SmallByte(a.length)]
    + Repeat(a.fill, a.length) + Repeat(0, 12 - a.length)
  }
}
