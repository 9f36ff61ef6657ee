/** The address of a device in numbers: the hash of the four bytes of its serial number. */
module Addresses {
  import opened CTypes
  import opened Crc16
  import Fnv1a
  import opened Frames
  import Gateway
  import opened Wire

  /** One byte in `fnv1aHash`: the exclusive or with the lowest byte of the state, then the product
      modulo 2^32. */
  function Hashed(hash: nat, b: Byte): nat {
    HashedBy(hash / 256, (hash % 256) as Byte, b)
  }

  function HashedBy(high: nat, low: Byte, b: Byte): nat {
    (256 * high + (low ^ b) as nat) * 16777619 % 4294967296
  }

  lemma HashedByIs(hash: U32, high: nat, low: Byte, b: Byte)
    requires hash == 256 * high + low as nat
    ensures Fnv1a.Step(hash, b) == HashedBy(high, low, b)
  {
    Fnv1a.StepByBytes(hash, high, low, b);
  }

  lemma Split(hash: U32)
    ensures hash == 256 * (hash / 256) + ((hash % 256) as Byte) as nat
  {
    LowByteIs(hash);
  }

  lemma HashedIs(hash: U32, b: Byte)
    ensures Fnv1a.Step(hash, b) == Hashed(hash, b)
  {
    Split(hash);
    HashedByIs(hash, hash / 256, (hash % 256) as Byte, b);
  }

  lemma OneMoreHashed(s: seq<Byte>, k: nat)
    requires k < |s|
    ensures Fnv1a.Hash(s[..k + 1]) == Hashed(Fnv1a.Hash(s[..k]), s[k])
  {
    assert s[..k + 1][..k] == s[..k];
    HashedIs(Fnv1a.Hash(s[..k]), s[k]);
  }

  /** The state after k bytes. */
  function HashedTo(s: seq<Byte>, k: nat): nat
    requires k <= |s|
  {
    if k == 0 then 2166136261 else Hashed(HashedTo(s, k - 1), s[k - 1])
  }

  /** `fnv1aHash` of any bytes. */
  lemma {:induction false} HashInBytes(s: seq<Byte>, k: nat)
    requires k <= |s|
    ensures Fnv1a.Hash(s[..k]) == HashedTo(s, k)
    decreases k
  {
    if k > 0 {
      HashInBytes(s, k - 1);
      OneMoreHashed(s, k - 1);
    }
  }

  /** The address of a device, from the bytes of its serial number, lowest first. */
  lemma AddressInBytes(sn: U32) returns (s: seq<Byte>)
    ensures |s| == 4 && Little(s) == sn
    ensures Gateway.AddressOf(sn) == HashedTo(s, 4)
  {
    s := BytesOf(sn);
    BytesOfIs(sn);
    HashInBytes(s, 4);
    assert s[..4] == s;
  }

  lemma {:induction false} NumberTells(s: seq<Byte>, t: seq<Byte>)
    requires |s| == |t| && NumberOf(s) == NumberOf(t)
    ensures s == t
    decreases |s|
  {
    if s != [] {
      FirstByte(s, s[1..]);
      FirstByte(t, t[1..]);
      FirstDigit(s[0] as nat, NumberOf(s[1..]), t[0] as nat, NumberOf(t[1..]));
      SameByte(s[0], t[0]);
      NumberTells(s[1..], t[1..]);
      assert s == [s[0]] + s[1..] && t == [t[0]] + t[1..];
    }
  }

  lemma LittleTells(s: seq<Byte>, t: seq<Byte>)
    requires |s| == |t| == 4 && Little(s) == Little(t)
    ensures s == t
  {
    LittleIsU32(s);
    LittleIsU32(t);
    NumberTells(s, t);
  }

  lemma SameByte(b: Byte, d: Byte)
    requires b as nat == d as nat
    ensures b == d
  {
    CastBack(b);
    CastBack(d);
  }

  lemma FirstDigit(a: nat, r: nat, a': nat, r': nat)
    requires a < 256 && a' < 256 && a + 0x100 * r == a' + 0x100 * r'
    ensures a == a' && r == r'
  {
  }

  lemma {:induction false} HashThrough(s: seq<Byte>, states: seq<nat>, k: nat)
    requires |states| == |s| + 1 && states[0] == 2166136261 && k <= |s|
    requires forall i :: 0 <= i < |s| ==> Hashed(states[i], s[i]) == states[i + 1]
    ensures HashedTo(s, k) == states[k]
    decreases k
  {
    if k > 0 {
      HashThrough(s, states, k - 1);
    }
  }

  lemma HashBy(s: seq<Byte>, states: seq<nat>)
    requires |states| == |s| + 1 && states[0] == 2166136261
    requires forall i :: 0 <= i < |s| ==> Hashed(states[i], s[i]) == states[i + 1]
    ensures Fnv1a.Hash(s) == states[|s|]
  {
    HashThrough(s, states, |s|);
    HashInBytes(s, |s|);
    assert s[..|s|] == s;
  }

  lemma AddressBy(sn: U32, s: seq<Byte>, w: nat, x: nat, y: nat, z: nat)
    requires |s| == 4 && Little(s) == sn
    requires Hashed(2166136261, s[0]) == w && Hashed(w, s[1]) == x && Hashed(x, s[2]) == y && Hashed(y, s[3]) == z
    ensures Gateway.AddressOf(sn) == z
  {
    BytesOfIs(sn);
    LittleTells(s, BytesOf(sn));
    HashBy(s, [2166136261, w, x, y, z]);
  }

  /** A step by the quotient q of its reduction. */
  lemma HashedValue(hash: nat, high: nat, low: Byte, b: Byte, q: nat, next: nat)
    requires hash == 256 * high + low as nat && next < 4294967296
    requires (256 * high + (low ^ b) as nat) * 16777619 == 4294967296 * q + next
    ensures Hashed(hash, b) == next
  {
    SplitAgain(hash, high, low);
    ValueBy(high, low, b, q, next);
  }

  lemma ValueBy(high: nat, low: Byte, b: Byte, q: nat, next: nat)
    requires (256 * high + (low ^ b) as nat) * 16777619 == 4294967296 * q + next && next < 4294967296
    ensures HashedBy(high, low, b) == next
  {
    Reduced((256 * high + (low ^ b) as nat) * 16777619, q, next);
  }

  lemma Reduced(x: nat, q: nat, r: nat)
    requires x == 4294967296 * q + r && r < 4294967296
    ensures x % 4294967296 == r
  {
  }

  lemma SplitAgain(hash: nat, high: nat, low: Byte)
    requires hash == 256 * high + low as nat
    ensures hash / 256 == high && (hash % 256) as Byte == low
  {
    CastBack(low);
  }

  lemma AddressOfOne()
    ensures Gateway.AddressOf(1) == 0xFB69B604
  {
    HashedValue(2166136261, 8461469, 197, 1, 8461673, 67918732);
    HashedValue(67918732, 265307, 140, 0, 265313, 3950255460);
    HashedValue(3950255460, 15430685, 100, 0, 15431056, 197805164);
    HashedValue(197805164, 772676, 108, 0, 772694, 4218009092);
    AddressBy(1, [1, 0, 0, 0], 67918732, 3950255460, 197805164, 0xFB69B604);
  }

  lemma AddressOfFourBytes()
    ensures Gateway.AddressOf(0x01020304) == 0x9B35D555
  {
    HashedValue(2166136261, 8461469, 197, 4, 8461673, 17585875);
    HashedValue(17585875, 68694, 211, 3, 68696, 1986832752);
    HashedValue(1986832752, 7761065, 112, 2, 7761251, 3742285430);
    HashedValue(3742285430, 14618302, 118, 1, 14618653, 2603996501);
    AddressBy(0x01020304, [4, 3, 2, 1], 17585875, 1986832752, 3742285430, 0x9B35D555);
  }
}
