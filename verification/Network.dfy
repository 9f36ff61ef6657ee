/** Gateways that hear each other: what one gateway does with a frame, and why a network of them
    falls silent. */
module Network {
  import opened CTypes
  import opened Corruption
  import opened Crc16
  import opened Escapes
  import opened Frames
  import opened OrderedMap

  datatype Device = Device(sn: U32, secret: Secret, ctr: Byte)

  /** What the send and receive paths read of a gateway: its own address and secret, and its device map. */
  datatype Node = Node(addr: U32, secret: Secret, devices: seq<Entry<Device>>)

  /** A sender uses its own secret for a device whose serial number has a non-zero top nibble. */
  function SendSecret(node: Node, device: Device): Secret {
    if device.sn / 0x1000_0000 != 0 then node.secret else device.secret
  }

  lemma ReceiveKnown(node: Node, f: Frame, device: Device, random: Byte, c: Cipher)
    requires Readable(node, f, c) && Get(node.devices, Source(f)) == To(device)
    ensures |Decrypt(f, device.secret, c)| == SIZE && InFormat(Decrypt(f, device.secret, c))
    ensures Receive(node, f, random, c) == Respond(f, device.secret, node.addr, SendSecret(node, device), random, c)
  {
  }

  function Source(f: Frame): U32 {
    U32Of(f[I_SRC..I_CTRL])
  }

  function Destination(f: Frame): U32 {
    U32Of(f[I_DST..I_SRC])
  }

  /** The frame as the gateway sees it, if it knows the source. */
  function Opened(node: Node, f: Frame, c: Cipher): Ptr<seq<Byte>> {
    match Get(node.devices, Source(f))
    case Null => Null
    case To(device) => To(Decrypt(f, device.secret, c))
  }

  /** The opened frame keeps to the 25-byte format. */
  predicate Readable(node: Node, f: Frame, c: Cipher) {
    var g := Opened(node, f, c);
    g.To? ==> |g.value| == SIZE && InFormat(g.value)
  }

  /** The answer to a frame from a device with secret s: none if the checksum is wrong or the
      command is not one that is answered; it goes out from address `me` under secret t. */
  function Respond(f: Frame, s: Secret, me: U32, t: Secret, random: Byte, c: Cipher): Ptr<seq<Byte>>
    requires |Decrypt(f, s, c)| == SIZE && InFormat(Decrypt(f, s, c))
  {
    var g: Frame := Decrypt(f, s, c);
    if !Passes(g) then Null
    else
      var a := AnswerTo(g[I_CMD]);
      if a.Silence? then Null else To(Seal(Reply(g, me, random, a), t, c))
  }

  /** One round of the loop of `rfRecvThread`: the frame it sends in answer, if any. */
  function Receive(node: Node, f: Frame, random: Byte, c: Cipher): Ptr<seq<Byte>>
    requires Readable(node, f, c)
  {
    match Get(node.devices, Source(f))
    case Null => Null
    case To(device) => Respond(f, device.secret, node.addr, SendSecret(node, device), random, c)
  }

  /** A packet's data once source and counter are filled in. */
  function Filled(data: seq<Byte>, me: U32, counter: Byte): (d: seq<Byte>)
    requires |data| == MAX_PACKET_LEN
    ensures |d| == MAX_PACKET_LEN
  {
    data[..I_SRC] + BytesOf(me) + [data[I_CTRL], counter] + data[I_RND..]
  }

  lemma FilledInPlace(data: seq<Byte>, me: U32, counter: Byte)
    requires |data| == MAX_PACKET_LEN
    ensures var addressed := data[..I_SRC] + BytesOf(me) + data[I_CTRL..];
      addressed[I_DST..I_SRC] == data[I_DST..I_SRC] && addressed[I_CTR := counter] == Filled(data, me, counter)
  {
  }

  /** The frame that `len` bytes of data give in a transmit buffer that held garbage. */
  function Overlay(data: seq<Byte>, len: nat, garbage: seq<Byte>, random: Byte): Frame
    requires |data| == |garbage| == MAX_PACKET_LEN && len <= MAX_PACKET_LEN
  {
    (data[..len] + garbage[len..])[..SIZE][I_RND := random]
  }

  /** If the addressee of a packet is known, the frame keeps to the 25-byte format. */
  predicate Sendable(node: Node, data: seq<Byte>, len: nat, garbage: seq<Byte>)
    requires |data| == |garbage| == MAX_PACKET_LEN && len <= MAX_PACKET_LEN
  {
    Get(node.devices, U32Of(data[I_DST..I_SRC])).To? ==> InFormat(Overlay(data, len, garbage, 0))
  }

  lemma OverlayInFormat(data: seq<Byte>, len: nat, garbage: seq<Byte>, me: U32, counter: Byte, random: Byte)
    requires |data| == |garbage| == MAX_PACKET_LEN && len <= MAX_PACKET_LEN
    ensures InFormat(Overlay(Filled(data, me, counter), len, garbage, random))
         == InFormat(Overlay(data, len, garbage, 0))
  {
    assert Filled(data, me, counter)[I_LEN] == data[I_LEN];
  }

  /** What `rfEnqueuePacket` sends for a packet, if it knows the addressee. */
  function Send(node: Node, data: seq<Byte>, len: nat, garbage: seq<Byte>, random: Byte, c: Cipher): Ptr<seq<Byte>>
    requires |data| == |garbage| == MAX_PACKET_LEN && len <= MAX_PACKET_LEN && Sendable(node, data, len, garbage)
  {
    match Get(node.devices, U32Of(data[I_DST..I_SRC]))
    case Null => Null
    case To(device) =>
      OverlayInFormat(data, len, garbage, node.addr, device.ctr, random);
      To(Seal(Overlay(Filled(data, node.addr, device.ctr), len, garbage, random), SendSecret(node, device), c))
  }

  lemma SendUnknown(node: Node, data: seq<Byte>, len: nat, garbage: seq<Byte>, random: Byte, c: Cipher)
    requires |data| == |garbage| == MAX_PACKET_LEN && len <= MAX_PACKET_LEN
    requires Get(node.devices, U32Of(data[I_DST..I_SRC])) == Null
    ensures Sendable(node, data, len, garbage) && Send(node, data, len, garbage, random, c) == Null
  {
  }

  lemma SendKnown(node: Node, data: seq<Byte>, addressed: seq<Byte>, len: nat, garbage: seq<Byte>, device: Device,
                  random: Byte, c: Cipher)
    requires |data| == |garbage| == MAX_PACKET_LEN && len <= MAX_PACKET_LEN && Sendable(node, data, len, garbage)
    requires Get(node.devices, U32Of(data[I_DST..I_SRC])) == To(device)
    requires addressed == data[..I_SRC] + BytesOf(node.addr) + data[I_CTRL..]
    ensures var f := Overlay(addressed[I_CTR := device.ctr], len, garbage, random);
      InFormat(f) && Send(node, data, len, garbage, random, c) == To(Seal(f, SendSecret(node, device), c))
  {
    FilledInPlace(data, node.addr, device.ctr);
    OverlayInFormat(data, len, garbage, node.addr, device.ctr, random);
  }

  // ---------------------------------------------------------------- networks

  type Net = map<U32, Node>

  /** Every gateway is listed under its address. */
  predicate Listed(net: Net) {
    forall a | a in net :: net[a].addr == a
  }

  /** Whenever a and b know each other, b's entry for a holds the secret with which a sends to b. */
  ghost predicate Agree(net: Net) {
    forall a, b | a in net && b in net && Get(net[a].devices, b).To? && Get(net[b].devices, a).To? ::
      Get(net[b].devices, a).value.secret == SendSecret(net[a], Get(net[a].devices, b).value)
  }

  /** Whoever receives the frame can read it. */
  predicate Fits(net: Net, f: Frame, c: Cipher) {
    Destination(f) in net ==> Readable(net[Destination(f)], f, c)
  }

  /** One frame is delivered to its addressee; the answer, if any, goes on the air. */
  function Deliver(net: Net, air: seq<Frame>, i: nat, random: Byte, c: Cipher): seq<seq<Byte>>
    requires i < |air| && Fits(net, air[i], c)
  {
    var rest := air[..i] + air[i + 1..];
    if Destination(air[i]) !in net then rest
    else
      match Receive(net[Destination(air[i])], air[i], random, c)
      case Null => rest
      case To(answer) => rest + [answer]
  }

  /** A frame that will be answered counts 2, any other 1. */
  function Cost(net: Net, f: Frame, c: Cipher): nat
    requires Fits(net, f, c)
  {
    if Destination(f) in net && Receive(net[Destination(f)], f, 0, c).To? then 2 else 1
  }

  predicate AllFit(net: Net, air: seq<Frame>, c: Cipher) {
    forall i :: 0 <= i < |air| ==> Fits(net, air[i], c)
  }

  function Weight(net: Net, air: seq<Frame>, c: Cipher): nat
    requires AllFit(net, air, c)
  {
    if air == [] then 0 else Cost(net, air[0], c) + Weight(net, air[1..], c)
  }

  /** A frame that a gateway built for an addressee with which it agrees opens there to the
      sender's frame with its checksum. */
  lemma SealedOpens(net: Net, a: U32, b: U32, plain: Frame, c: Cipher)
    requires Listed(net) && Agree(net) && Sound(c) && a in net && b in net
    requires InFormat(plain) && plain[I_SRC..I_CTRL] == BytesOf(a)
    requires Get(net[a].devices, b).To?
    ensures var f := Seal(plain, SendSecret(net[a], Get(net[a].devices, b).value), c);
      && |f| == SIZE && Source(f) == a && f[I_DST..I_SRC] == plain[I_DST..I_SRC]
      && (Get(net[b].devices, a).To? ==> Opened(net[b], f, c) == To(WithChecksum(plain)))
      && Readable(net[b], f, c)
  {
    var s := SendSecret(net[a], Get(net[a].devices, b).value);
    var f := Seal(plain, s, c);
    OpensWhatWasSealed(plain, s, c);
    assert f[I_SRC..I_CTRL] == f[..I_CTR][I_SRC..I_CTRL] == plain[..I_CTR][I_SRC..I_CTRL] == plain[I_SRC..I_CTRL];
    assert f[I_DST..I_SRC] == f[..I_CTR][I_DST..I_SRC] == plain[..I_CTR][I_DST..I_SRC] == plain[I_DST..I_SRC];
    U32InMemory(a);
    if Get(net[b].devices, a).To? {
      assert Get(net[b].devices, a).value.secret == s;
    }
  }

  lemma OverlayHolds(data: seq<Byte>, len: nat, garbage: seq<Byte>, me: U32, counter: Byte, random: Byte, n: nat)
    requires |data| == |garbage| == MAX_PACKET_LEN && I_DATA <= n <= len <= MAX_PACKET_LEN && n <= SIZE
    ensures var f := Overlay(Filled(data, me, counter), len, garbage, random);
      && f[I_DST..I_SRC] == data[I_DST..I_SRC] && f[I_SRC..I_CTRL] == BytesOf(me)
      && f[I_CTRL] == data[I_CTRL] && f[I_CTR] == counter && f[I_RND] == random
      && f[I_LEN] == data[I_LEN] && f[I_CMD..n] == data[I_CMD..n]
  {
    var f := Overlay(Filled(data, me, counter), len, garbage, random);
    forall i | 0 <= i < 4 ensures f[I_SRC + i] == BytesOf(me)[i] {
    }
    forall i | I_CMD <= i < n ensures f[i] == data[i] {
    }
  }

  /** The fields that the checksum leaves alone. */
  lemma FieldsSurvive(plain: Frame)
    requires InFormat(plain)
    ensures var g, n := WithChecksum(plain), I_DATA + Length(plain);
      && InFormat(g) && Passes(g) && Length(g) == Length(plain)
      && g[I_DST..I_SRC] == plain[I_DST..I_SRC] && g[I_SRC..I_CTRL] == plain[I_SRC..I_CTRL]
      && g[I_CTRL] == plain[I_CTRL] && g[I_CTR] == plain[I_CTR] && g[I_RND] == plain[I_RND] && g[I_CMD] == plain[I_CMD]
      && g[I_CMD..n] == plain[I_CMD..n] && g[I_DATA..n] == plain[I_DATA..n]
  {
    ChecksumPasses(plain);
    var g, n := WithChecksum(plain), I_DATA + Length(plain);
    forall i | 0 <= i < n ensures g[i] == plain[i] {
      assert g[..n][i] == plain[..n][i];
    }
  }

  /** A packet that a gateway sends to an addressee with which it agrees is readable there: the
      checksum is right and every field is the sender's. */
  lemma SentArrives(net: Net, a: U32, b: U32, data: seq<Byte>, len: nat, garbage: seq<Byte>, random: Byte, c: Cipher)
    requires Listed(net) && Agree(net) && Sound(c) && a in net && b in net
    requires Get(net[a].devices, b).To? && Get(net[b].devices, a).To?
    requires |data| == |garbage| == MAX_PACKET_LEN && len <= MAX_PACKET_LEN && U32Of(data[I_DST..I_SRC]) == b
    requires I_DATA + data[I_LEN] as nat <= len && data[I_LEN] as nat <= 10
    ensures Sendable(net[a], data, len, garbage)
    ensures var sent := Send(net[a], data, len, garbage, random, c);
      && sent.To? && |sent.value| == SIZE && Source(sent.value) == a && Destination(sent.value) == b
      && Opened(net[b], sent.value, c).To?
      && var g := Opened(net[b], sent.value, c).value;
      && |g| == SIZE && InFormat(g) && Passes(g)
      && g[I_DST..I_SRC] == data[I_DST..I_SRC] && g[I_SRC..I_CTRL] == BytesOf(a)
      && g[I_CTRL] == data[I_CTRL] && g[I_CTR] == Get(net[a].devices, b).value.ctr && g[I_RND] == random
      && g[I_CMD..I_DATA + data[I_LEN] as nat] == data[I_CMD..I_DATA + data[I_LEN] as nat]
  {
    var device := Get(net[a].devices, b).value;
    var plain := Overlay(Filled(data, a, device.ctr), len, garbage, random);
    var n := I_DATA + data[I_LEN] as nat;
    OverlayHolds(data, len, garbage, a, device.ctr, random, n);
    OverlayInFormat(data, len, garbage, a, device.ctr, random);
    SealedOpens(net, a, b, plain, c);
    FieldsSurvive(plain);
  }

  /** An answer is addressed to the source of the frame it answers, can be read there, and is not
      answered again. */
  lemma AnswerIsFinal(net: Net, f: Frame, random: Byte, c: Cipher)
    requires Listed(net) && Agree(net) && Sound(c)
    requires Destination(f) in net && Fits(net, f, c)
    requires Receive(net[Destination(f)], f, random, c).To?
    ensures var r := Receive(net[Destination(f)], f, random, c).value;
      |r| == SIZE && Destination(r) == Source(f) && Fits(net, r, c) && Cost(net, r, c) == 1
  {
    var me := Destination(f);
    var node := net[me];
    var device := Get(node.devices, Source(f)).value;
    var g: Frame := Decrypt(f, device.secret, c);
    var plain := Reply(g, me, random, AnswerTo(g[I_CMD]));
    var r := Seal(plain, SendSecret(node, device), c);
    OpensWhatWasSealed(plain, SendSecret(node, device), c);
    assert g[I_SRC..I_CTRL] == f[I_SRC..I_CTRL];
    assert r[I_DST..I_SRC] == r[..I_CTR][I_DST..I_SRC] == plain[..I_CTR][I_DST..I_SRC] == plain[I_DST..I_SRC];
    if Source(f) in net {
      SealedOpens(net, me, Source(f), plain, c);
      FieldsSurvive(plain);
      AnswersAreFinal(g[I_CMD]);
    }
  }

  lemma ReplyHolds(f: Frame, me: U32, random: Byte, a: Answer)
    requires a.Answer? && a.length <= 4
    ensures var r := Reply(f, me, random, a);
      && IsEncrypted(r) == IsEncrypted(f) && r[I_CTR] == f[I_CTR] | 0x80 && r[I_RND] == random
      && Length(r) == a.length && r[I_DATA..I_DATA + a.length] == Repeat(a.fill, a.length)
  {
  }

  /** A request and its answer: the requester opens an answer that comes from the addressee, is
      encrypted if and only if the request was, carries the request's counter with the top bit set,
      and the command and data that belong to the request's command. */
  lemma AnswerArrives(net: Net, f: Frame, random: Byte, c: Cipher)
    requires Listed(net) && Agree(net) && Sound(c)
    requires Destination(f) in net && Source(f) in net && Fits(net, f, c)
    requires Receive(net[Destination(f)], f, random, c).To? && Get(net[Source(f)].devices, Destination(f)).To?
    ensures var request, r := Opened(net[Destination(f)], f, c).value, Receive(net[Destination(f)], f, random, c).value;
      && |r| == SIZE && Opened(net[Source(f)], r, c).To?
      && var answer, a := Opened(net[Source(f)], r, c).value, AnswerTo(request[I_CMD]);
      && |answer| == SIZE && InFormat(answer) && Passes(answer) && a.Answer?
      && answer[I_SRC..I_CTRL] == BytesOf(Destination(f)) && answer[I_DST..I_SRC] == f[I_SRC..I_CTRL]
      && IsEncrypted(answer) == IsEncrypted(f)
      && answer[I_CTR] == request[I_CTR] | 0x80 && answer[I_RND] == random && answer[I_CMD] == a.command
      && Length(answer) == a.length && answer[I_DATA..I_DATA + a.length] == Repeat(a.fill, a.length)
  {
    var me, you := Destination(f), Source(f);
    var device := Get(net[me].devices, you).value;
    var g: Frame := Decrypt(f, device.secret, c);
    var a := AnswerTo(g[I_CMD]);
    var plain := Reply(g, me, random, a);
    ReplyHolds(g, me, random, a);
    SealedOpens(net, me, you, plain, c);
    FieldsSurvive(plain);
    assert g[I_SRC..I_CTRL] == f[I_SRC..I_CTRL] && g[I_CTRL] == f[I_CTRL];
  }

  /** A frame that, once opened, differs from one with a right checksum is not answered if its
      length byte is intact and the difference is an odd number of bits in what the checksum covers
      and itself, or a burst of at most twelve bits there, or one of at most sixteen in what the
      checksum covers. */
  lemma CorruptedIsIgnored(node: Node, f: Frame, intact: Frame, at: nat, random: Byte, c: Cipher)
    requires Readable(node, f, c) && Opened(node, f, c).To?
    requires InFormat(intact) && Passes(intact) && Length(intact) == Length(Opened(node, f, c).value)
    requires var g: Frame := Opened(node, f, c).value;
      || Flips(Sent(intact), Sent(g)) % 2 == 1
      || (Sent(g) != Sent(intact) && Burst(Sent(intact), Sent(g), at, 12))
      || (Stored(g) == Stored(intact) && Covered(g) != Covered(intact)
          && Burst(DataBits(Covered(intact)), DataBits(Covered(g)), at, 16))
    ensures Receive(node, f, random, c) == Null
  {
    var g: Frame := Opened(node, f, c).value;
    if Flips(Sent(intact), Sent(g)) % 2 == 1 {
      OddFlipsFail(intact, g);
    } else if Stored(g) == Stored(intact) && Covered(g) != Covered(intact)
              && Burst(DataBits(Covered(intact)), DataBits(Covered(g)), at, 16) {
      BurstFails(intact, g, at);
    } else {
      ShortBurstFails(intact, g, at);
    }
  }

  /** A frame that, once opened, differs from one with a right checksum within sixteen bits, in the
      order in which they are sent and with its length byte intact, is ignored unless the damage is
      one of the twelve errors that pass; then it is answered if its command is. */
  lemma BurstIsIgnored(node: Node, f: Frame, intact: Frame, at: nat, random: Byte, c: Cipher)
    requires Readable(node, f, c) && Opened(node, f, c).To?
    requires InFormat(intact) && Passes(intact) && Length(intact) == Length(Opened(node, f, c).value)
    requires var g: Frame := Opened(node, f, c).value;
      Sent(g) != Sent(intact) && Burst(Sent(intact), Sent(g), at, 16)
    ensures var g: Frame := Opened(node, f, c).value;
      Receive(node, f, random, c) == Null <==> !EndsInEscape(Error(intact, g)) || AnswerTo(g[I_CMD]).Silence?
  {
    BurstPasses(intact, Opened(node, f, c).value, at);
  }

  /** Thirteen bits across the end of the data can go unnoticed, whatever the frame. */
  lemma EscapeIsAnswered(node: Node, f: Frame, intact: Frame, random: Byte, c: Cipher)
    requires Readable(node, f, c) && InFormat(intact) && Length(intact) > 0 && Passes(intact)
    requires Opened(node, f, c) == To(Escape(intact)) && AnswerTo(intact[I_CMD]).Answer?
    ensures Receive(node, f, random, c).To?
  {
    var g := Escape(intact);
    ThirteenBitsEscape(intact);
    assert Passes(g) && g[I_CMD] == intact[I_CMD];
  }

  /** A single flipped bit can go unnoticed in the length byte. */
  lemma FlippedLengthIsAnswered(node: Node, length: Byte, random: Byte, c: Cipher)
    requires Get(node.devices, 1).To? && (length == 0 || length == 1)
    ensures Readable(node, Poll(length), c) && Receive(node, Poll(length), random, c).To?
  {
    var f := Poll(length);
    OneFlipInTheLengthEscapes();
    PollSource(length);
  }

  lemma {:induction false} WeightCat(net: Net, a: seq<Frame>, b: seq<Frame>, c: Cipher)
    requires AllFit(net, a, c) && AllFit(net, b, c)
    ensures AllFit(net, a + b, c) && Weight(net, a + b, c) == Weight(net, a, c) + Weight(net, b, c)
    decreases |a|
  {
    if a == [] {
      assert a + b == b;
    } else {
      assert (a + b)[1..] == a[1..] + b && (a + b)[0] == a[0];
      WeightCat(net, a[1..], b, c);
    }
  }

  /** The answer to a frame does not depend on the random byte as far as there is one. */
  lemma AnswersAnyway(node: Node, f: Frame, random: Byte, c: Cipher)
    requires Readable(node, f, c)
    ensures Receive(node, f, random, c).To? == Receive(node, f, 0, c).To?
  {
  }

  lemma SingleWeight(net: Net, f: Frame, c: Cipher)
    requires Fits(net, f, c)
    ensures AllFit(net, [f], c) && Weight(net, [f], c) == Cost(net, f, c)
  {
    assert [f][1..] == [];
  }

  /** Taking a frame out of the air takes its cost out of the weight. */
  lemma TakenOut(net: Net, air: seq<Frame>, i: nat, c: Cipher)
    requires AllFit(net, air, c) && i < |air|
    ensures var rest := air[..i] + air[i + 1..];
      AllFit(net, rest, c) && Weight(net, air, c) == Weight(net, rest, c) + Cost(net, air[i], c)
  {
    var a, b := air[..i], air[i + 1..];
    assert air == a + ([air[i]] + b);
    SingleWeight(net, air[i], c);
    WeightCat(net, [air[i]], b, c);
    WeightCat(net, a, [air[i]] + b, c);
    WeightCat(net, a, b, c);
  }

  /** Every delivery makes the air lighter and leaves only readable frames. */
  lemma DeliveryLightens(net: Net, air: seq<Frame>, i: nat, random: Byte, c: Cipher)
    requires Listed(net) && Agree(net) && Sound(c) && AllFit(net, air, c) && i < |air|
    ensures var after := Deliver(net, air, i, random, c);
      && (forall k :: 0 <= k < |after| ==> |after[k]| == SIZE)
      && AllFit(net, after, c) && Weight(net, after, c) + 1 <= Weight(net, air, c)
  {
    var f := air[i];
    TakenOut(net, air, i, c);
    if Destination(f) in net {
      AnswersAnyway(net[Destination(f)], f, random, c);
      var r := Receive(net[Destination(f)], f, random, c);
      if r.To? {
        AnswerIsFinal(net, f, random, c);
        SingleWeight(net, r.value, c);
        WeightCat(net, air[..i] + air[i + 1..], [r.value], c);
      }
    }
  }

  lemma {:induction false} WeightBound(net: Net, air: seq<Frame>, c: Cipher)
    requires AllFit(net, air, c)
    ensures |air| <= Weight(net, air, c) <= 2 * |air|
    decreases |air|
  {
    if air != [] {
      WeightBound(net, air[1..], c);
    }
  }

  /** One step of the air: some frame in it is delivered. */
  ghost predicate Steps(net: Net, air: seq<Frame>, next: seq<Frame>, c: Cipher) {
    exists i: nat, random: Byte ::
      i < |air| && Fits(net, air[i], c) && Deliver(net, air, i, random, c) == next
  }

  lemma StepLightens(net: Net, air: seq<Frame>, next: seq<Frame>, c: Cipher)
    requires Listed(net) && Agree(net) && Sound(c) && AllFit(net, air, c) && Steps(net, air, next, c)
    ensures AllFit(net, next, c) && Weight(net, next, c) + 1 <= Weight(net, air, c)
  {
    var i: nat, random: Byte :|
      i < |air| && Fits(net, air[i], c) && Deliver(net, air, i, random, c) == next;
    DeliveryLightens(net, air, i, random, c);
  }

  /** As long as there are frames in the air, one can be delivered. */
  lemma OnlySilenceIsFinal(net: Net, air: seq<Frame>, c: Cipher)
    requires Listed(net) && Agree(net) && Sound(c) && AllFit(net, air, c)
    ensures air == [] <==> !exists next :: Steps(net, air, next, c)
  {
    if air != [] {
      DeliveryLightens(net, air, 0, 0, c);
      var next: seq<Frame> := Deliver(net, air, 0, 0, c);
      assert Steps(net, air, next, c);
    }
  }

  /** A history of the air, from its n-th state on: each state follows from the one before by some
      delivery. */
  ghost predicate History(net: Net, states: seq<seq<Frame>>, n: nat, c: Cipher)
    requires n < |states|
    decreases |states| - n
  {
    n + 1 < |states| ==> Steps(net, states[n], states[n + 1], c) && History(net, states, n + 1, c)
  }

  lemma {:induction false} HistoryLightens(net: Net, states: seq<seq<Frame>>, n: nat, c: Cipher)
    requires Listed(net) && Agree(net) && Sound(c) && n < |states| && History(net, states, n, c)
    requires AllFit(net, states[n], c)
    ensures var last := states[|states| - 1];
      AllFit(net, last, c) && |states| - 1 - n + Weight(net, last, c) <= Weight(net, states[n], c)
    decreases |states| - n
  {
    if n + 1 < |states| {
      StepLightens(net, states[n], states[n + 1], c);
      HistoryLightens(net, states, n + 1, c);
    }
  }

  /** Whatever is delivered in whatever order, a network of agreeing gateways is quiet after at
      most twice as many deliveries as there were frames. */
  lemma NetworkFallsSilent(net: Net, states: seq<seq<Frame>>, c: Cipher)
    requires Listed(net) && Agree(net) && Sound(c) && states != [] && History(net, states, 0, c)
    requires AllFit(net, states[0], c)
    ensures |states| - 1 <= 2 * |states[0]|
    ensures |states| - 1 == 2 * |states[0]| ==> states[|states| - 1] == []
  {
    HistoryLightens(net, states, 0, c);
    WeightBound(net, states[0], c);
    WeightBound(net, states[|states| - 1], c);
  }
}
