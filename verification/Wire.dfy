/** What goes over the air, byte by byte: the frames that the send path and the receive path produce,
    in numbers of bytes and of commands, and under which device's key. */
module Wire {
  import opened CTypes
  import opened Crc16
  import opened Frames
  import opened Network
  import opened OrderedMap

  /** Four bytes, lowest first. */
  function Little(b: seq<Byte>): nat
    requires |b| == 4
  {
    b[0] as nat + 0x100 * b[1] as nat + 0x1_0000 * b[2] as nat + 0x100_0000 * b[3] as nat
  }

  lemma FirstByte(b: seq<Byte>, rest: seq<Byte>)
    requires b != [] && rest == b[1..]
    ensures NumberOf(b) == b[0] as nat + 0x100 * NumberOf(rest)
  {
  }

  lemma LittleIsU32(b: seq<Byte>)
    requires |b| == 4
    ensures U32Of(b) == Little(b)
  {
    Bound32();
    FirstByte(b, b[1..]);
    FirstByte(b[1..], b[2..]);
    FirstByte(b[2..], b[3..]);
    FirstByte(b[3..], []);
  }

  /** The two bytes behind the data are the checksum of bytes 4 to 12 and of the data, low byte first. */
  predicate Checked(p: seq<Byte>)
    requires |p| == 25 && p[12] <= 10
  {
    var n := p[12] as nat;
    var crc := Crc(p[4..13 + n]);
    p[13 + n] == (crc & 0xFF) as Byte && p[14 + n] == (crc >> 8) as Byte
  }

  /** The sixteen bytes from number 9 on are encrypted if the top bit of byte 8 is set. */
  function Encrypted(p: seq<Byte>, s: Secret, c: Cipher): seq<Byte>
    requires |p| == 25
  {
    if p[8] & 0x80 != 0 then p[..9] + c.enc(s, p[9..]) else p
  }

  function Decrypted(f: seq<Byte>, s: Secret, c: Cipher): seq<Byte>
    requires |f| == 25
  {
    if f[8] & 0x80 != 0 then f[..9] + c.dec(s, f[9..]) else f
  }

  lemma SealedAt(plain: Frame, i: nat)
    requires plain[12] <= 10 && i < 25 && i != 13 + plain[12] as nat && i != 14 + plain[12] as nat
    ensures InFormat(plain) && WithChecksum(plain)[i] == plain[i]
  {
    var n := 13 + plain[12] as nat;
    if i < n {
      assert plain[..n][i] == plain[i];
    } else {
      assert plain[n + 2..][i - n - 2] == plain[i];
    }
  }

  lemma SealInBytes(plain: Frame, s: Secret, c: Cipher) returns (p: seq<Byte>)
    requires plain[12] <= 10
    ensures InFormat(plain) && |p| == 25 && p[12] == plain[12] && Checked(p)
    ensures forall i :: 0 <= i < 25 && i != 13 + plain[12] as nat && i != 14 + plain[12] as nat ==> p[i] == plain[i]
    ensures Seal(plain, s, c) == Encrypted(p, s, c)
  {
    p := WithChecksum(plain);
    forall i | 0 <= i < 25 && i != 13 + plain[12] as nat && i != 14 + plain[12] as nat ensures p[i] == plain[i] {
      SealedAt(plain, i);
    }
    ChecksumInBytes(plain);
  }

  lemma ChecksumInBytes(plain: Frame)
    requires plain[12] <= 10
    ensures InFormat(plain) && WithChecksum(plain)[12] == plain[12] && Checked(WithChecksum(plain))
  {
    ChecksumPasses(plain);
    SealedAt(plain, 12);
    PassesInBytes(WithChecksum(plain));
  }

  /** The device that the four bytes name. */
  predicate Known(node: Node, address: seq<Byte>, device: Device)
    requires |address| == 4
  {
    Little(address) < 0x1_0000_0000 && Get(node.devices, Little(address)) == To(device)
  }

  /** The key and iv for a device: the gateway's own if the top four bits of the serial number are
      not all zero. */
  ghost predicate IsKeyFor(s: Secret, node: Node, device: Device) {
    && (device.sn < 0x1000_0000 ==> s == device.secret)
    && (device.sn >= 0x1000_0000 ==> s == node.secret)
  }

  lemma KeyIs(node: Node, device: Device)
    ensures IsKeyFor(SendSecret(node, device), node, device)
  {
  }

  // ---------------------------------------------------------------- sending

  /** Byte i of the transmit buffer before checksum and encryption: the packet's with the gateway's
      address in 4 to 7 and the counter in 9, behind the packet's length what the buffer held, and a
      random byte in 10. */
  function Prepared(data: seq<Byte>, len: nat, garbage: seq<Byte>, me: seq<Byte>, counter: Byte, random: Byte,
                    i: nat): Byte
    requires |data| == |garbage| == 256 && len <= 256 && |me| == 4 && i < 25
  {
    if i == 10 then random
    else if i >= len then garbage[i]
    else if 4 <= i < 8 then me[i - 4]
    else if i == 9 then counter
    else data[i]
  }

  lemma FilledAt(data: seq<Byte>, me: U32, counter: Byte, i: nat)
    requires |data| == 256 && i < 25
    ensures Filled(data, me, counter)[i] ==
      if 4 <= i < 8 then BytesOf(me)[i - 4] else if i == 9 then counter else data[i]
  {
  }

  lemma OverlayAt(data: seq<Byte>, len: nat, garbage: seq<Byte>, me: U32, counter: Byte, random: Byte, i: nat)
    requires |data| == |garbage| == 256 && len <= 256 && i < 25
    ensures Overlay(Filled(data, me, counter), len, garbage, random)[i]
         == Prepared(data, len, garbage, BytesOf(me), counter, random, i)
  {
    FilledAt(data, me, counter, i);
  }

  lemma BytesOfIs(me: U32)
    ensures Little(BytesOf(me)) == me
  {
    U32InMemory(me);
    LittleIsU32(BytesOf(me));
  }

  lemma SendIs(node: Node, data: seq<Byte>, len: nat, garbage: seq<Byte>, device: Device, random: Byte, c: Cipher)
    returns (plain: Frame)
    requires |data| == |garbage| == 256 && len <= 256 && Known(node, data[..4], device)
    requires (if len > 12 then data[12] else garbage[12]) <= 10
    ensures Sendable(node, data, len, garbage) && plain[12] <= 10
    ensures plain == Overlay(Filled(data, node.addr, device.ctr), len, garbage, random)
    ensures Send(node, data, len, garbage, random, c) == To(Seal(plain, SendSecret(node, device), c))
  {
    LittleIsU32(data[..4]);
    assert data[I_DST..I_SRC] == data[..4];
    OverlayInFormat(data, len, garbage, node.addr, device.ctr, random);
    plain := Overlay(Filled(data, node.addr, device.ctr), len, garbage, random);
    OverlayAt(data, len, garbage, node.addr, device.ctr, random, 12);
  }

  /** What is sent for a packet of `len` bytes to a known device: these bytes with the checksum behind
      their data, encrypted if they say so under the key for the device. */
  lemma SendInBytes(node: Node, data: seq<Byte>, len: nat, garbage: seq<Byte>, device: Device, random: Byte, c: Cipher)
    returns (p: seq<Byte>, me: seq<Byte>, s: Secret)
    requires |data| == |garbage| == 256 && len <= 256 && Known(node, data[..4], device)
    requires (if len > 12 then data[12] else garbage[12]) <= 10
    ensures |p| == 25 && p[12] <= 10 && Checked(p) && |me| == 4 && Little(me) == node.addr
    ensures forall i :: 0 <= i < 25 && i != 13 + p[12] as nat && i != 14 + p[12] as nat ==>
      p[i] == Prepared(data, len, garbage, me, device.ctr, random, i)
    ensures Sendable(node, data, len, garbage) && IsKeyFor(s, node, device)
    ensures Send(node, data, len, garbage, random, c) == To(Encrypted(p, s, c))
  {
    var plain := SendIs(node, data, len, garbage, device, random, c);
    s, me := SendSecret(node, device), BytesOf(node.addr);
    KeyIs(node, device);
    BytesOfIs(node.addr);
    p := SealInBytes(plain, s, c);
    forall i | 0 <= i < 25 && i != 13 + p[12] as nat && i != 14 + p[12] as nat
      ensures p[i] == Prepared(data, len, garbage, me, device.ctr, random, i)
    {
      OverlayAt(data, len, garbage, node.addr, device.ctr, random, i);
    }
  }

  // ---------------------------------------------------------------- receiving

  /** The commands that are answered. */
  predicate IsRequest(command: Byte) {
    command == 0x01 || command == 0x02 || command == 0x03 || command == 0x84 || command == 0x85
  }

  /** Command and length of the answer, and the value of its data bytes. */
  predicate IsAnswer(command: Byte, answer: Byte, length: Byte, fill: Byte) {
    && (command == 0x01 ==> answer == 0x81 && length == 4 && fill == 0x11)
    && (command == 0x02 ==> answer == 0x82 && length == 4 && fill == 0x22)
    && (command == 0x03 ==> answer == 0x82 && length == 4 && fill == 0x33)
    && (command == 0x84 ==> answer == 0x04 && length == 4 && fill == 0x44)
    && (command == 0x85 ==> answer == 0x04 && length == 0)
  }

  lemma AnswerInBytes(command: Byte)
    ensures AnswerTo(command).Answer? <==> IsRequest(command)
    ensures var a := AnswerTo(command);
      a.Answer? ==> a.length <= 4 && IsAnswer(command, a.command, SmallByte(a.length), a.fill)
  {
  }

  lemma TwoBytes(s: seq<Byte>, i: nat)
    requires i + 2 <= |s|
    ensures s[i..i + 2] == [s[i], s[i + 1]]
  {
  }

  lemma PassesInBytes(g: Frame)
    requires g[12] <= 10
    ensures InFormat(g) && (Passes(g) <==> Checked(g))
  {
    var n := g[12] as nat;
    TwoBytes(g, 13 + n);
  }

  lemma KnownIs(node: Node, f: Frame, device: Device)
    requires Known(node, f[4..8], device)
    ensures Get(node.devices, Source(f)) == To(device)
  {
    LittleIsU32(f[4..8]);
  }

  /** A frame from a device the gateway knows, which it opens to g: there is an answer if and only if
      g's checksum is right and its command is a request. */
  lemma IsAnswered(node: Node, f: Frame, device: Device, random: Byte, c: Cipher, g: Frame)
    requires Known(node, f[4..8], device) && g == Decrypted(f, device.secret, c) && g[12] <= 10
    ensures Readable(node, f, c) && (Receive(node, f, random, c).To? <==> Checked(g) && IsRequest(g[11]))
  {
    KnownIs(node, f, device);
    PassesInBytes(g);
    AnswerInBytes(g[11]);
  }

  /** A frame from an unknown source is not answered. */
  lemma UnknownIsIgnored(node: Node, f: Frame, random: Byte, c: Cipher)
    requires Get(node.devices, Source(f)) == Null
    ensures Readable(node, f, c) && Receive(node, f, random, c) == Null
    ensures Source(f) == Little(f[4..8])
  {
    LittleIsU32(f[4..8]);
  }

  lemma ReplyInBytes(g: Frame, me: U32, random: Byte, a: Answer)
    requires a.Answer? && a.length <= 4
    ensures var p := Reply(g, me, random, a);
      && p[..4] == g[4..8] && p[4..8] == BytesOf(me)
      && p[8] == (if g[8] & 0x80 != 0 then 0x80 else 0) && p[9] == g[9] | 0x80 && p[10] == random
      && p[11] == a.command && p[12] == SmallByte(a.length)
      && (forall i :: 13 <= i < 13 + a.length ==> p[i] == a.fill)
      && forall i :: 13 + a.length <= i < 25 ==> p[i] == 0
  {
    var p := Reply(g, me, random, a);
    forall i | 0 <= i < 4 ensures p[i] == g[4 + i] && p[4 + i] == BytesOf(me)[i] {
    }
  }

  /** The bytes of an answer up to its data: 0 to 3 the source of the request, 4 to 7 the gateway's
      address, 8 whether the request was encrypted, 9 its counter with the top bit set, 10 random. */
  predicate IsHeader(p: seq<Byte>, f: seq<Byte>, g: seq<Byte>, me: nat, random: Byte)
    requires |p| == |f| == |g| == 25
  {
    && p[..4] == f[4..8] && Little(p[4..8]) == me
    && p[8] == (if f[8] & 0x80 != 0 then 0x80 else 0) && p[9] == g[9] | 0x80 && p[10] == random
  }

  /** The data bytes, and zeros behind the checksum. */
  predicate IsFilled(p: seq<Byte>, fill: Byte)
    requires |p| == 25 && p[12] <= 4
  {
    && (forall i :: 13 <= i < 13 + p[12] as nat ==> p[i] == fill)
    && forall i :: 15 + p[12] as nat <= i < 25 ==> p[i] == 0
  }

  lemma SealedReply(g: Frame, f: Frame, me: U32, random: Byte, a: Answer, s: Secret, c: Cipher) returns (p: seq<Byte>)
    requires a.Answer? && a.length <= 4 && g[4..8] == f[4..8] && g[8] == f[8]
    ensures |p| == 25 && IsHeader(p, f, g, me, random) && p[11] == a.command && p[12] == SmallByte(a.length)
    ensures p[12] <= 4 && Checked(p) && IsFilled(p, a.fill)
    ensures Seal(Reply(g, me, random, a), s, c) == Encrypted(p, s, c)
  {
    var plain := Reply(g, me, random, a);
    ReplyInBytes(g, me, random, a);
    p := SealInBytes(plain, s, c);
    BytesOfIs(me);
    assert p[..4] == plain[..4] && p[4..8] == plain[4..8];
  }

  /** The answer to a frame that is opened to g, in bytes. */
  lemma AnswerIs(node: Node, f: Frame, device: Device, random: Byte, c: Cipher, g: Frame)
    returns (p: seq<Byte>, fill: Byte, s: Secret)
    requires Known(node, f[4..8], device) && g == Decrypted(f, device.secret, c) && g[12] <= 10
    requires Readable(node, f, c) && Receive(node, f, random, c).To?
    ensures |p| == 25 && IsHeader(p, f, g, node.addr, random)
    ensures p[12] <= 4 && Checked(p) && IsAnswer(g[11], p[11], p[12], fill) && IsFilled(p, fill)
    ensures IsKeyFor(s, node, device) && Receive(node, f, random, c) == To(Encrypted(p, s, c))
  {
    KnownIs(node, f, device);
    AnswerInBytes(g[11]);
    var a := AnswerTo(g[11]);
    s, fill := SendSecret(node, device), a.fill;
    KeyIs(node, device);
    assert g[4..8] == f[4..8];
    p := SealedReply(g, f, node.addr, random, a, s, c);
  }
}
