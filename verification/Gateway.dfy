/** The gateway of rf.c: its device map, its send path and its receive path over byte buffers. */
module Gateway {
  import opened CTypes
  import opened Crc16
  import Fnv1a
  import opened Frames
  import HashMap
  import Network
  import opened OrderedMap

  // ---------------------------------------------------------------- byte buffers

  /** `memcpy` or `memset` of known bytes into a buffer. */
  method Put(buf: array<Byte>, at: nat, bytes: seq<Byte>)
    requires at + |bytes| <= buf.Length
    modifies buf
    ensures buf[..] == old(buf[..at]) + bytes + old(buf[at + |bytes|..])
  {
    for i := 0 to |bytes|
      invariant buf[..] == old(buf[..at]) + bytes[..i] + old(buf[at + i..])
    {
      buf[at + i] := bytes[i];
    }
  }

  lemma SliceOfPrefix(b: seq<Byte>, k: nat, i: nat, j: nat)
    requires i <= j <= k <= |b|
    ensures b[..k][i..j] == b[i..j]
  {
  }

  lemma PrefixOfPatched(b: seq<Byte>, k: nat, i: nat, d: seq<Byte>)
    requires i + |d| <= k <= |b|
    ensures (b[..i] + d + b[i + |d|..])[..k] == b[..k][..i] + d + b[..k][i + |d|..]
  {
  }

  /** Where a frame's checksum and what it covers lie in its buffer. */
  lemma FrameInBuffer(b: seq<Byte>, f: Frame, n: nat)
    requires |b| == MAX_PACKET_LEN && f == b[..SIZE] && n == Length(f) <= 10
    ensures b[I_SRC..I_DATA + n] == Covered(f) && b[I_DATA + n..I_DATA + n + 2] == Frames.Stored(f)
    ensures (b[..I_DATA + n] + WordBytes(Crc(Covered(f))) + b[I_DATA + n + 2..])[..SIZE] == WithChecksum(f)
  {
    SliceOfPrefix(b, SIZE, I_SRC, I_DATA + n);
    SliceOfPrefix(b, SIZE, I_DATA + n, I_DATA + n + 2);
    PrefixOfPatched(b, SIZE, I_DATA + n, WordBytes(Crc(Covered(f))));
  }

  /** Stores the checksum behind the data and encrypts the window if the control byte says so;
      the last part of both the send path and the answer path. */
  method SealBuffer(buf: array<Byte>, s: Secret, c: Cipher)
    requires buf.Length == MAX_PACKET_LEN && Sound(c) && InFormat(buf[..SIZE])
    modifies buf
    ensures buf[..SIZE] == Seal(old(buf[..SIZE]), s, c)
  {
    ghost var f: Frame := buf[..SIZE];
    var n := buf[I_LEN] as nat;
    FrameInBuffer(buf[..], f, n);
    var crc := Compute(buf, I_SRC, 9 + n);
    Put(buf, I_DATA + n, WordBytes(crc));
    assert buf[..SIZE] == buf[..][..SIZE] == WithChecksum(f);
    EncryptBuffer(buf, s, c);
  }

  method EncryptBuffer(buf: array<Byte>, s: Secret, c: Cipher)
    requires buf.Length == MAX_PACKET_LEN && Sound(c)
    modifies buf
    ensures buf[..SIZE] == Encrypt(old(buf[..SIZE]), s, c)
  {
    if buf[I_CTRL] & 0x80 != 0 {
      assert buf[..SIZE][I_CTR..] == buf[I_CTR..SIZE];
      assert |buf[I_CTR..SIZE]| == 16;
      Put(buf, I_CTR, c.enc(s, buf[I_CTR..SIZE]));
    }
  }

  method DecryptBuffer(buf: array<Byte>, s: Secret, c: Cipher)
    requires buf.Length == MAX_PACKET_LEN && Sound(c)
    modifies buf
    ensures buf[..SIZE] == Decrypt(old(buf[..SIZE]), s, c)
  {
    if buf[I_CTRL] & 0x80 != 0 {
      assert buf[..SIZE][I_CTR..] == buf[I_CTR..SIZE];
      assert |buf[I_CTR..SIZE]| == 16;
      Put(buf, I_CTR, c.dec(s, buf[I_CTR..SIZE]));
    }
  }

  /** The comparison of the stored checksum with the computed one. */
  method CheckBuffer(buf: array<Byte>) returns (intact: bool)
    requires buf.Length == MAX_PACKET_LEN && InFormat(buf[..SIZE])
    ensures intact == Passes(buf[..SIZE])
  {
    var n := buf[I_LEN] as nat;
    FrameInBuffer(buf[..], buf[..SIZE], n);
    var crc := Compute(buf, I_SRC, 9 + n);
    return buf[I_DATA + n..I_DATA + n + 2] == WordBytes(crc);
  }

  lemma TwoAddresses(zero: seq<Byte>, source: seq<Byte>, destination: seq<Byte>)
    requires |zero| == MAX_PACKET_LEN && forall i :: 0 <= i < |zero| ==> zero[i] == 0
    requires |source| == 4 && |destination| == 4
    ensures var t := destination + (zero[..I_SRC] + source + zero[I_CTRL..])[I_SRC..];
      && |t| == MAX_PACKET_LEN && t[..I_CTRL] == destination + source
      && forall i :: I_CTRL <= i < |t| ==> t[i] == 0
  {
    var s := zero[..I_SRC] + source + zero[I_CTRL..];
    assert s[I_SRC..] == source + zero[I_CTRL..];
    assert destination + (source + zero[I_CTRL..]) == (destination + source) + zero[I_CTRL..];
  }

  /** Both addresses of the answer to the frame in rx, and whether it is to be encrypted. */
  method Address(rx: array<Byte>, tx: array<Byte>, me: U32)
    requires rx.Length == tx.Length == MAX_PACKET_LEN && rx != tx
    requires forall i :: 0 <= i < MAX_PACKET_LEN ==> tx[i] == 0
    modifies tx
    ensures tx[..I_CTR] == rx[I_SRC..I_CTRL] + BytesOf(me) + [if IsEncrypted(rx[..SIZE]) then 0x80 else 0]
    ensures forall i :: I_CTR <= i < MAX_PACKET_LEN ==> tx[i] == 0
  {
    ghost var zero, source, destination := tx[..], BytesOf(me), rx[I_SRC..I_CTRL];
    Put(tx, I_SRC, BytesOf(me));
    Put(tx, I_DST, rx[I_SRC..I_CTRL]);
    assert tx[..] == destination + (zero[..I_SRC] + source + zero[I_CTRL..])[I_SRC..];
    TwoAddresses(zero, source, destination);
    assert tx[..I_CTRL] == tx[..][..I_CTRL] == destination + source;
    assert forall i :: I_CTRL <= i < MAX_PACKET_LEN ==> tx[..][i] == 0;
    if rx[I_CTRL] & 0x80 != 0 {
      tx[I_CTRL] := 0x80;
    }
    assert tx[..I_CTR] == tx[..I_CTRL] + [tx[I_CTRL]];
  }

  /** The `memset` of the data of an answer. */
  method FillData(tx: array<Byte>, a: Answer, ghost header: seq<Byte>)
    requires tx.Length == MAX_PACKET_LEN && a.Answer? && a.length <= 4
    requires |header| == I_DATA && tx[..I_DATA] == header
    requires forall i :: I_DATA <= i < MAX_PACKET_LEN ==> tx[i] == 0
    modifies tx
    ensures tx[..SIZE] == header + Repeat(a.fill, a.length) + Repeat(0, 12 - a.length)
  {
    Put(tx, I_DATA, Repeat(a.fill, a.length));
  }

  /** The rest of the answer, behind the addresses and the control byte. */
  method WriteAnswer(tx: array<Byte>, a: Answer, counter: Byte, random: Byte)
    requires tx.Length == MAX_PACKET_LEN && a.Answer? && a.length <= 4
    requires forall i :: I_CTR <= i < MAX_PACKET_LEN ==> tx[i] == 0
    modifies tx
    ensures tx[..SIZE] == old(tx[..I_CTR]) + [counter, random, a.command, SmallByte(a.length)]
      + Repeat(a.fill, a.length) + Repeat(0, 12 - a.length)
  {
    tx[I_CMD] := a.command;
    tx[I_LEN] := SmallByte(a.length);
    tx[I_CTR] := counter;
    tx[I_RND] := random;
    FillData(tx, a, old(tx[..I_CTR]) + [counter, random, a.command, SmallByte(a.length)]);
  }

  /** The switch and the lines after it: writes the answer to the opened frame in rx into the
      zeroed buffer tx, up to the checksum. */
  method WriteReply(rx: array<Byte>, tx: array<Byte>, me: U32, random: Byte) returns (send: bool)
    requires rx.Length == tx.Length == MAX_PACKET_LEN && rx != tx
    requires forall i :: 0 <= i < MAX_PACKET_LEN ==> tx[i] == 0
    modifies tx
    ensures var f, a := rx[..SIZE], AnswerTo(rx[I_CMD]);
      && send == a.Answer?
      && (send ==> tx[..SIZE] == Reply(f, me, random, a))
  {
    Address(rx, tx, me);
    var a := AnswerTo(rx[I_CMD]);
    send := a.Answer?;
    if send {
      ghost var header := tx[..I_CTR];
      WriteAnswer(tx, a, rx[I_CTR] | 0x80, random);
      SliceOfPrefix(rx[..], SIZE, I_SRC, I_CTRL);
      assert rx[I_SRC..I_CTRL] == rx[..SIZE][I_SRC..I_CTRL];
      ReplyIs(rx[..SIZE], me, random, a, header);
    }
  }

  lemma ReplyIs(f: Frame, me: U32, random: Byte, a: Answer, header: seq<Byte>)
    requires a.Answer? && a.length <= 4
    requires header == f[I_SRC..I_CTRL] + BytesOf(me) + [if IsEncrypted(f) then 0x80 else 0]
    ensures Reply(f, me, random, a) == header + [f[I_CTR] | 0x80, random, a.command, SmallByte(a.length)]
      + Repeat(a.fill, a.length) + Repeat(0, 12 - a.length)
  {
    assert [if IsEncrypted(f) then 0x80 else 0, f[I_CTR] | 0x80, random, a.command, SmallByte(a.length)]
      == [if IsEncrypted(f) then 0x80 else 0] + [f[I_CTR] | 0x80, random, a.command, SmallByte(a.length)];
  }

  // ---------------------------------------------------------------- devices

  class RfDevice {
    var addr: U32
    var sn: U32
    var secret: Secret
    var ctr: Byte

    constructor (sn: U32, secret: Secret)
      ensures this.sn == sn && this.secret == secret && ctr == 0
    {
      this.sn, this.secret, addr, ctr := sn, secret, 0, 0;
    }
  }

  /** What the network model knows of a stored device. */
  ghost function InfoOf(value: Ptr<RfDevice>): Ptr<Network.Device>
    reads if value.To? then {value.value} else {}
  {
    if value.To? then To(Network.Device(value.value.sn, value.value.secret, value.value.ctr)) else Null
  }

  ghost function Members(items: seq<Entry<RfDevice>>): set<RfDevice> {
    set i | 0 <= i < |items| && items[i].value.To? :: items[i].value.value
  }

  ghost function Snapshot(items: seq<Entry<RfDevice>>): (s: seq<Entry<Network.Device>>)
    reads Members(items)
    ensures |s| == |items|
    ensures forall i {:trigger s[i]} :: 0 <= i < |s| ==> s[i] == Entry(items[i].key, InfoOf(items[i].value))
  {
    seq(|items|, i requires 0 <= i < |items| reads Members(items) => Entry(items[i].key, InfoOf(items[i].value)))
  }

  lemma {:induction false} SnapshotGet(items: seq<Entry<RfDevice>>, k: Key, m: nat)
    requires m <= |items|
    ensures GetFrom(items, k, m).To? ==> GetFrom(items, k, m).value in Members(items)
    ensures GetFrom(Snapshot(items), k, m) == InfoOf(GetFrom(items, k, m))
    decreases |items| - m
  {
    if m < |items| && items[m].key != k {
      SnapshotGet(items, k, m + 1);
    }
  }

  // ---------------------------------------------------------------- addresses

  /** The address that `rfAddDevice` computes. */
  function AddressOf(sn: U32): U32 {
    Fnv1a.Hash(BytesOf(sn))
  }

  /** Two serial numbers that differ in exactly one byte. */
  ghost predicate OneByteApart(a: U32, b: U32) {
    exists i :: 0 <= i < 4 && BytesOf(b)[i] != BytesOf(a)[i] && BytesOf(b) == BytesOf(a)[i := BytesOf(b)[i]]
  }

  lemma AddressesDiffer(a: U32, b: U32)
    requires OneByteApart(a, b)
    ensures AddressOf(a) != AddressOf(b)
  {
    var i :| 0 <= i < 4 && BytesOf(b)[i] != BytesOf(a)[i] && BytesOf(b) == BytesOf(a)[i := BytesOf(b)[i]];
    Fnv1a.OneByteNeverCollides(BytesOf(a), i, BytesOf(b)[i]);
  }

  /** One `rfAddDevice` call: serial number, device, and the memory there is for its set. */
  datatype Add<+V> = Add(sn: U32, dev: V, memory: Memory)

  /** Its effect on the device map: nothing if a new entry finds no memory. */
  function Adding<V>(s: seq<Entry<V>>, a: Add<V>): seq<Entry<V>> {
    if Has(s, AddressOf(a.sn)) || a.memory != NoEntry then Set(s, AddressOf(a.sn), To(a.dev)) else s
  }

  /** The device map after a series of `rfAddDevice` calls. */
  function Registered<V>(adds: seq<Add<V>>): seq<Entry<V>> {
    if adds == [] then [] else Adding(Registered(adds[..|adds| - 1]), adds[|adds| - 1])
  }

  lemma SetIsAdding<V>(a: Moment<V>, x: Add<V>, b: Moment<V>)
    requires SetEffect(a, AddressOf(x.sn), To(x.dev), Finds(a, AddressOf(x.sn), x.memory), b)
    ensures b.entries == Adding(a.entries, x)
  {
  }

  lemma AddingMeans<V>(s: seq<Entry<V>>, a: Add<V>, k: Key)
    requires Distinct(s)
    ensures var t, addr := Adding(s, a), AddressOf(a.sn);
      && Distinct(t) && (Has(s, addr) ==> Keys(t) == Keys(s))
      && (Get(t, addr) == To(a.dev) <==> Has(s, addr) || a.memory != NoEntry)
      && Has(t, k) == (Has(s, k) || (k == addr && a.memory != NoEntry))
      && (k != addr ==> Get(t, k) == Get(s, k))
  {
    SetMeans(s, AddressOf(a.sn), To(a.dev), k);
    MissingIsNull(s, AddressOf(a.sn));
  }

  /** Some call has stored an entry under the address. */
  ghost predicate Stored<V>(adds: seq<Add<V>>, k: Key) {
    exists j :: 0 <= j < |adds| && AddressOf(adds[j].sn) == k && adds[j].memory != NoEntry
  }

  /** The map has an address if and only if some call with it found memory for the entry. */
  lemma {:induction false} RegisteredHas<V>(adds: seq<Add<V>>, k: Key)
    ensures Distinct(Registered(adds)) && (Has(Registered(adds), k) <==> Stored(adds, k))
    decreases |adds|
  {
    if adds != [] {
      var last, rest := adds[|adds| - 1], adds[..|adds| - 1];
      RegisteredHas(rest, k);
      AddingMeans(Registered(rest), last, k);
      if Stored(rest, k) {
        var j :| 0 <= j < |rest| && AddressOf(rest[j].sn) == k && rest[j].memory != NoEntry;
        assert adds[j] == rest[j];
      }
    }
  }

  /** While only devices whose serial numbers differ from its own in one byte are added, an added
      device stays retrievable under its address if and only if the address was known or the call
      found memory for the entry. */
  lemma {:induction false} StaysRetrievable<V>(adds: seq<Add<V>>, i: nat)
    requires i < |adds| && forall j :: i < j < |adds| ==> OneByteApart(adds[i].sn, adds[j].sn)
    ensures var addr := AddressOf(adds[i].sn);
      Get(Registered(adds), addr) == To(adds[i].dev) <==> Stored(adds[..i], addr) || adds[i].memory != NoEntry
    decreases |adds|
  {
    var last, rest, addr := adds[|adds| - 1], adds[..|adds| - 1], AddressOf(adds[i].sn);
    RegisteredHas(rest, addr);
    AddingMeans(Registered(rest), last, addr);
    if i < |rest| {
      AddressesDiffer(adds[i].sn, last.sn);
      assert rest[..i] == adds[..i];
      StaysRetrievable(rest, i);
    }
  }

  /** Adding a serial number that is stored again replaces that entry only, in its place. */
  lemma AddedAgain<V>(adds: seq<Add<V>>, a: Add<V>)
    requires Stored(adds, AddressOf(a.sn))
    ensures var before, after := Registered(adds), Registered(adds + [a]);
      && Keys(after) == Keys(before) && Get(after, AddressOf(a.sn)) == To(a.dev)
      && forall k: Key :: k != AddressOf(a.sn) ==> Has(after, k) == Has(before, k) && Get(after, k) == Get(before, k)
  {
    var before, after := Registered(adds), Registered(adds + [a]);
    assert (adds + [a])[..|adds|] == adds;
    RegisteredHas(adds, AddressOf(a.sn));
    forall k: Key
      ensures Keys(after) == Keys(before) && Get(after, AddressOf(a.sn)) == To(a.dev)
      ensures k != AddressOf(a.sn) ==> Has(after, k) == Has(before, k) && Get(after, k) == Get(before, k)
    {
      AddingMeans(before, a, k);
    }
    AddingMeans(before, a, AddressOf(a.sn));
  }

  // ---------------------------------------------------------------- the gateway

  class Packet {
    const data: array<Byte>
    const len: nat

    constructor (data: array<Byte>, len: nat)
      requires data.Length == MAX_PACKET_LEN && len <= MAX_PACKET_LEN
      ensures this.data == data && this.len == len
    {
      this.data, this.len := data, len;
    }
  }

  class Gateway {
    const gw: RfDevice
    const devices: HashMap.Map<RfDevice>

    ghost predicate Valid()
      reads devices, devices.entries, devices.order
    {
      devices.Valid()
    }

    ghost function View(): Network.Node
      reads gw, devices, devices.order, Members(devices.Items())
    {
      Network.Node(gw.addr, gw.secret, Snapshot(devices.Items()))
    }

    /** The network model sees the gateway's own address and secret, and of each stored device the
        serial number, secret and counter. */
    lemma ViewMeans(a: U32)
      ensures View().addr == gw.addr && View().secret == gw.secret
      ensures match Get(devices.Items(), a)
        case Null => Get(View().devices, a) == Null
        case To(d) =>
          var seen := Get(View().devices, a);
          seen.To? && seen.value.sn == d.sn && seen.value.secret == d.secret && seen.value.ctr == d.ctr
    {
      SnapshotGet(devices.Items(), a, 0);
    }

    constructor (gw: RfDevice, devices: HashMap.Map<RfDevice>)
      requires devices.Valid()
      ensures this.gw == gw && this.devices == devices && Valid()
    {
      this.gw, this.devices := gw, devices;
    }

    /** `rfAddDevice`, which ignores whether the map had memory and releases the evicted device. */
    method AddDevice(newDev: RfDevice, memory: Memory) returns (status: nat, ghost released: Ptr<RfDevice>)
      requires Valid()
      modifies newDev`addr, devices.Repr()
      ensures Valid() && status == 0
      ensures newDev.addr == AddressOf(newDev.sn) && released == Get(old(devices.Items()), newDev.addr)
      ensures var found := Finds(old(devices.Now()), newDev.addr, memory);
        SetEffect(old(devices.Now()), newDev.addr, To(newDev), found, devices.Now())
      ensures devices.Items() == Adding(old(devices.Items()), Add(newDev.sn, newDev, memory))
    {
      var addr := Fnv1a.Compute(BytesOf(newDev.sn));
      newDev.addr := addr;
      var evicted, errno;
      ghost var before := devices.Now();
      evicted, errno := devices.Set(newDev.addr, To(newDev), memory);
      SetIsAdding(before, Add(newDev.sn, newDev, memory), devices.Now());
      released := evicted;
      status := 0;
    }

    /** `hashmap_get` on the device map. */
    method Lookup(addr: U32) returns (dev: Ptr<RfDevice>)
      requires Valid()
      ensures dev == Get(devices.Items(), addr) && (dev.To? ==> dev.value in Members(devices.Items()))
      ensures Get(old(View()).devices, addr) == old(InfoOf(dev)) == InfoOf(dev)
    {
      SnapshotGet(devices.Items(), addr, 0);
      ghost var items := devices.Items();
      dev := devices.Get(addr);
      assert devices.Items() == items;
    }

    /** Whose key and iv encrypt what is sent to the device. */
    function SecretFor(dev: RfDevice): Secret
      reads dev, gw
    {
      if dev.sn / 0x1000_0000 != 0 then gw.secret else dev.secret
    }

    /** The body of `rfRecvThread` for a frame that was received into rx. */
    method HandleFrame(rx: array<Byte>, random: Byte, c: Cipher) returns (sent: Ptr<seq<Byte>>)
      requires Valid() && Sound(c) && rx.Length == MAX_PACKET_LEN
      requires Network.Readable(View(), rx[..SIZE], c)
      modifies rx
      ensures sent == Network.Receive(old(View()), old(rx[..SIZE]), random, c)
    {
      ghost var node, f: Frame := View(), rx[..SIZE];
      var source := U32Of(rx[I_SRC..I_CTRL]);
      assert source == Network.Source(f) by {
        assert rx[I_SRC..I_CTRL] == f[I_SRC..I_CTRL];
      }
      var dev := Lookup(source);
      assert Get(node.devices, source) == InfoOf(dev);
      if dev.Null? {
        return Null;
      }
      ghost var device := InfoOf(dev).value;
      assert SecretFor(dev.value) == Network.SendSecret(node, device);
      Network.ReceiveKnown(node, f, device, random, c);
      sent := Respond(rx, dev.value, random, c);
    }

    /** What is left of it once the device is known. */
    method Respond(rx: array<Byte>, dev: RfDevice, random: Byte, c: Cipher) returns (sent: Ptr<seq<Byte>>)
      requires Sound(c) && rx.Length == MAX_PACKET_LEN
      requires |Decrypt(rx[..SIZE], dev.secret, c)| == SIZE && InFormat(Decrypt(rx[..SIZE], dev.secret, c))
      modifies rx
      ensures sent == Network.Respond(old(rx[..SIZE]), dev.secret, gw.addr, SecretFor(dev), random, c)
    {
      DecryptBuffer(rx, dev.secret, c);
      var intact := CheckBuffer(rx);
      if !intact {
        return Null;
      }
      var tx := new Byte[MAX_PACKET_LEN](_ => 0);
      var send := WriteReply(rx, tx, gw.addr, random);
      if !send {
        return Null;
      }
      SealBuffer(tx, SecretFor(dev), c);
      return To(tx[..SIZE]);
    }

    /** What is left of `rfEnqueuePacket` once the device is known: the counter is filled in, `len`
        bytes go over what txbuf held, the random byte is drawn and the frame is sealed. */
    method Transmit(packet: Packet, txbuf: array<Byte>, dev: RfDevice, random: Byte, c: Cipher) returns (sent: Frame)
      requires Sound(c) && packet.data.Length == txbuf.Length == MAX_PACKET_LEN && packet.data != txbuf
      requires packet.len <= MAX_PACKET_LEN
      requires InFormat(Network.Overlay(packet.data[..][I_CTR := dev.ctr], packet.len, txbuf[..], random))
      modifies packet.data, txbuf, dev`ctr
      ensures dev.ctr == old(dev.ctr) + 1
      ensures
        var data := old(packet.data[..])[I_CTR := old(dev.ctr)];
        sent == Seal(Network.Overlay(data, packet.len, old(txbuf[..]), random), old(SecretFor(dev)), c)
    {
      packet.data[I_CTR] := dev.ctr;
      dev.ctr := dev.ctr + 1;
      Put(txbuf, 0, packet.data[..packet.len]);
      txbuf[I_RND] := random;
      assert packet.data[..] == old(packet.data[..])[I_CTR := old(dev.ctr)];
      assert txbuf[..SIZE] == Network.Overlay(packet.data[..], packet.len, old(txbuf[..]), random);
      SealBuffer(txbuf, SecretFor(dev), c);
      return txbuf[..SIZE];
    }

    /** The device to which a packet goes, if it is known. */
    ghost function Addressee(packet: Packet): Ptr<RfDevice>
      requires packet.data.Length == MAX_PACKET_LEN
      reads packet.data, devices, devices.order
    {
      Get(devices.Items(), U32Of(packet.data[I_DST..I_SRC]))
    }

    /** The source goes in, the destination is looked up. */
    method FillSource(packet: Packet) returns (dev: Ptr<RfDevice>)
      requires Valid() && packet.data.Length == MAX_PACKET_LEN && packet.data !in devices.Repr()
      modifies packet.data
      ensures Valid() && packet.data[..] == old(packet.data[..I_SRC]) + BytesOf(gw.addr) + old(packet.data[I_CTRL..])
      ensures dev == old(Addressee(packet)) && (dev.To? ==> dev.value in old(Members(devices.Items())))
    {
      ghost var items := devices.Items();
      Put(packet.data, I_SRC, BytesOf(gw.addr));
      assert packet.data[I_DST..I_SRC] == packet.data[..][I_DST..I_SRC] == old(packet.data[I_DST..I_SRC]);
      assert devices.Items() == items;
      dev := Lookup(U32Of(packet.data[I_DST..I_SRC]));
    }

    /** `rfEnqueuePacket` for a packet that is there. */
    method Schedule(packet: Packet, txbuf: array<Byte>, random: Byte, c: Cipher)
      returns (status: nat, sent: Ptr<seq<Byte>>)
      requires Valid() && Sound(c) && packet.data.Length == txbuf.Length == MAX_PACKET_LEN
      requires packet.len <= MAX_PACKET_LEN && packet.data != txbuf
      requires packet.data !in devices.Repr() && txbuf !in devices.Repr()
      requires Network.Sendable(View(), packet.data[..], packet.len, txbuf[..])
      modifies txbuf, packet.data, Members(devices.Items())`ctr
      ensures Valid() && status == if sent.To? then 0 else 1
      ensures sent == Network.Send(old(View()), old(packet.data[..]), packet.len, old(txbuf[..]), random, c)
      ensures forall d :: d in old(Members(devices.Items())) ==>
        d.ctr == old(d.ctr) + if To(d) == old(Addressee(packet)) then 1 else 0
    {
      ghost var node, data := View(), packet.data[..];
      SnapshotGet(devices.Items(), U32Of(data[I_DST..I_SRC]), 0);
      assert data[I_DST..I_SRC] == packet.data[I_DST..I_SRC];
      assert Get(node.devices, U32Of(data[I_DST..I_SRC])) == InfoOf(Addressee(packet));
      var dev := FillSource(packet);
      if dev.Null? {
        Network.SendUnknown(node, data, packet.len, txbuf[..], random, c);
        return 1, Null;
      }
      ghost var device := InfoOf(dev).value;
      Network.SendKnown(node, data, packet.data[..], packet.len, txbuf[..], device, random, c);
      assert SecretFor(dev.value) == Network.SendSecret(node, device);
      assert device.ctr == dev.value.ctr;
      var frame := Transmit(packet, txbuf, dev.value, random, c);
      return 0, To(frame);
    }

    /** `rfEnqueuePacket`; txbuf comes with arbitrary contents. */
    method Enqueue(packet: Packet?, txbuf: array<Byte>, random: Byte, c: Cipher)
      returns (status: nat, sent: Ptr<seq<Byte>>)
      requires Valid() && Sound(c) && txbuf.Length == MAX_PACKET_LEN
      requires packet != null ==>
        && packet.data.Length == MAX_PACKET_LEN && packet.len <= MAX_PACKET_LEN && packet.data != txbuf
        && packet.data !in devices.Repr() && txbuf !in devices.Repr()
        && Network.Sendable(View(), packet.data[..], packet.len, txbuf[..])
      modifies txbuf, (if packet != null then {packet.data} else {}), Members(devices.Items())`ctr
      ensures Valid() && status == if sent.To? then 0 else 1
      ensures packet == null ==> sent == Null
      ensures packet != null ==>
        sent == Network.Send(old(View()), old(packet.data[..]), packet.len, old(txbuf[..]), random, c)
      ensures forall d :: d in old(Members(devices.Items())) ==>
        d.ctr == old(d.ctr) + if packet != null && To(d) == old(Addressee(packet)) then 1 else 0
    {
      if packet == null {
        return 1, Null;
      }
      status, sent := Schedule(packet, txbuf, random, c);
    }
  }
}
