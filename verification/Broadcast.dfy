/** Gateways in radio range of each other. The receive path does not compare the destination of a
    frame with its own address, so every gateway answers whose entry for the source holds the secret
    with which the frame was sent. Such a network falls silent, too. */
module Broadcast {
  import opened CTypes
  import opened Crc16
  import opened Frames
  import opened Network
  import opened OrderedMap

  /** A frame in the air and the secret with which it was sealed. */
  datatype Transmission = Transmission(frame: Frame, secret: Secret)

  /** The gateway knows the source, and with the right secret if the frame is encrypted. */
  predicate Hears(node: Node, t: Transmission) {
    var device := Get(node.devices, Source(t.frame));
    device.To? && (IsEncrypted(t.frame) ==> device.value.secret == t.secret)
  }

  predicate Answers(node: Node, t: Transmission, c: Cipher) {
    Hears(node, t) && Readable(node, t.frame, c) && Receive(node, t.frame, 0, c).To?
  }

  /** Whoever hears the frame can read it. */
  predicate Clear(net: Net, t: Transmission, c: Cipher) {
    forall a | a in net :: Hears(net[a], t) ==> Readable(net[a], t.frame, c)
  }

  predicate AllClear(net: Net, air: seq<Transmission>, c: Cipher) {
    forall i :: 0 <= i < |air| ==> Clear(net, air[i], c)
  }

  /** What a gateway puts on the air when it answers. */
  ghost function AnswerOf(node: Node, t: Transmission, random: Byte, c: Cipher): Transmission
    requires Sound(c) && Answers(node, t, c)
  {
    AnswerIsFrame(node, t, random, c);
    Transmission(Receive(node, t.frame, random, c).value, SendSecret(node, Get(node.devices, Source(t.frame)).value))
  }

  lemma AnswerIsFrame(node: Node, t: Transmission, random: Byte, c: Cipher)
    requires Sound(c) && Answers(node, t, c)
    ensures var r := Receive(node, t.frame, random, c); r.To? && |r.value| == SIZE
  {
    var device := Get(node.devices, Source(t.frame)).value;
    var g: Frame := Decrypt(t.frame, device.secret, c);
    OpensWhatWasSealed(Reply(g, node.addr, random, AnswerTo(g[I_CMD])), SendSecret(node, device), c);
  }

  /** Who hears a sealed frame opens it to the sender's frame with its checksum. */
  lemma HearersOpen(node: Node, plain: Frame, s: Secret, c: Cipher)
    requires Sound(c) && InFormat(plain)
    ensures |Seal(plain, s, c)| == SIZE
    ensures Hears(node, Transmission(Seal(plain, s, c), s)) ==>
      Opened(node, Seal(plain, s, c), c) == To(WithChecksum(plain))
  {
    OpensWhatWasSealed(plain, s, c);
    var f := Seal(plain, s, c);
    assert f[I_CTRL] == f[..I_CTR][I_CTRL] == plain[..I_CTR][I_CTRL];
  }

  /** Any frame that was sealed can be read by whoever hears it. */
  lemma SealedIsClear(net: Net, plain: Frame, s: Secret, c: Cipher)
    requires Sound(c) && InFormat(plain)
    ensures |Seal(plain, s, c)| == SIZE && Clear(net, Transmission(Seal(plain, s, c), s), c)
  {
    FieldsSurvive(plain);
    OpensWhatWasSealed(plain, s, c);
    forall a | a in net
      ensures Hears(net[a], Transmission(Seal(plain, s, c), s)) ==> Readable(net[a], Seal(plain, s, c), c)
    {
      HearersOpen(net[a], plain, s, c);
    }
  }

  /** No gateway that hears an answer answers it. */
  lemma AnswerIsHushed(node: Node, t: Transmission, random: Byte, other: Node, c: Cipher)
    requires Sound(c) && Answers(node, t, c)
    ensures var r := AnswerOf(node, t, random, c);
      (Hears(other, r) ==> Readable(other, r.frame, c)) && !Answers(other, r, c)
  {
    var device := Get(node.devices, Source(t.frame)).value;
    var g: Frame := Decrypt(t.frame, device.secret, c);
    var plain := Reply(g, node.addr, random, AnswerTo(g[I_CMD]));
    AnswerIsFrame(node, t, random, c);
    HearersOpen(other, plain, SendSecret(node, device), c);
    FieldsSurvive(plain);
    AnswersAreFinal(g[I_CMD]);
  }

  // ---------------------------------------------------------------- the air

  predicate AreDistinct(who: seq<U32>) {
    forall i, j :: 0 <= i < j < |who| ==> who[i] != who[j]
  }

  /** The gateways that answer a transmission when it reaches them. */
  function Answerers(net: Net, t: Transmission, c: Cipher): set<U32> {
    set a | a in net && Answers(net[a], t, c)
  }

  /** The answers of the gateways that a transmission reaches. */
  ghost function AnswersOf(net: Net, t: Transmission, who: seq<U32>, random: U32 -> Byte, c: Cipher): seq<Transmission>
    requires Sound(c)
  {
    if who == [] then []
    else
      var a := who[|who| - 1];
      AnswersOf(net, t, who[..|who| - 1], random, c)
      + if a in Answerers(net, t, c) then [AnswerOf(net[a], t, random(a), c)] else []
  }

  /** A transmission counts 1, and 1 more for each gateway that would answer it. */
  function Weight(net: Net, air: seq<Transmission>, c: Cipher): nat {
    if air == [] then 0 else Weight(net, air[..|air| - 1], c) + 1 + |Answerers(net, air[|air| - 1], c)|
  }

  lemma {:induction false} WeightCat(net: Net, a: seq<Transmission>, b: seq<Transmission>, c: Cipher)
    ensures Weight(net, a + b, c) == Weight(net, a, c) + Weight(net, b, c)
    decreases |b|
  {
    if b == [] {
      assert a + b == a;
    } else {
      assert (a + b)[..|a + b| - 1] == a + b[..|b| - 1];
      WeightCat(net, a, b[..|b| - 1], c);
    }
  }

  /** Everyone who hears it can read it, and nobody answers. */
  ghost predicate Light(net: Net, t: Transmission, c: Cipher) {
    Clear(net, t, c) && Answerers(net, t, c) == {}
  }

  lemma AnswerIsLight(net: Net, node: Node, t: Transmission, random: Byte, c: Cipher)
    requires Sound(c) && Answers(node, t, c)
    ensures Light(net, AnswerOf(node, t, random, c), c)
  {
    var r := AnswerOf(node, t, random, c);
    forall b | b in net ensures (Hears(net[b], r) ==> Readable(net[b], r.frame, c)) && !Answers(net[b], r, c) {
      AnswerIsHushed(node, t, random, net[b], c);
    }
  }

  ghost predicate AllLight(net: Net, air: seq<Transmission>, c: Cipher) {
    forall i :: 0 <= i < |air| ==> Light(net, air[i], c)
  }

  lemma {:induction false} LightWeight(net: Net, air: seq<Transmission>, c: Cipher)
    requires AllLight(net, air, c)
    ensures AllClear(net, air, c) && Weight(net, air, c) == |air|
    decreases |air|
  {
    if air != [] {
      LightWeight(net, air[..|air| - 1], c);
    }
  }

  /** Those of `who` that are in s. */
  function Among(who: seq<U32>, s: set<U32>): set<U32> {
    set a | a in who && a in s
  }

  lemma OneMoreAmong(who: seq<U32>, s: set<U32>)
    requires AreDistinct(who) && who != []
    ensures var n := |who| - 1;
      |Among(who, s)| == |Among(who[..n], s)| + if who[n] in s then 1 else 0
  {
    var n := |who| - 1;
    var before := Among(who[..n], s);
    assert who[n] !in before;
    assert Among(who, s) == if who[n] in s then before + {who[n]} else before;
  }

  /** Those among the gateways reached who answer. */
  function Reached(net: Net, t: Transmission, who: seq<U32>, c: Cipher): set<U32> {
    Among(who, Answerers(net, t, c))
  }

  /** There are as many answers as there are answerers among those reached, and no answer is
      answered. */
  lemma {:induction false} AnswersAreLight(net: Net, t: Transmission, who: seq<U32>, random: U32 -> Byte, c: Cipher)
    requires Sound(c) && AreDistinct(who)
    ensures var answers := AnswersOf(net, t, who, random, c);
      AllLight(net, answers, c) && |answers| == |Reached(net, t, who, c)|
    decreases |who|
  {
    if who != [] {
      var rest, a := who[..|who| - 1], who[|who| - 1];
      AnswersAreLight(net, t, rest, random, c);
      OneMoreAmong(who, Answerers(net, t, c));
      if a in Answerers(net, t, c) {
        AnswerIsLight(net, net[a], t, random(a), c);
      }
    }
  }

  lemma ClearCat(net: Net, a: seq<Transmission>, b: seq<Transmission>, c: Cipher)
    requires AllClear(net, a, c) && AllClear(net, b, c)
    ensures AllClear(net, a + b, c)
  {
  }

  lemma ClearWithout(net: Net, air: seq<Transmission>, i: nat, c: Cipher)
    requires AllClear(net, air, c) && i < |air|
    ensures AllClear(net, air[..i] + air[i + 1..], c)
  {
    ClearCat(net, air[..i], air[i + 1..], c);
  }

  lemma SingleWeight(net: Net, t: Transmission, c: Cipher)
    ensures Weight(net, [t], c) == 1 + |Answerers(net, t, c)|
  {
    assert [t][..0] == [];
  }

  /** Taking a transmission out of the air takes its weight. */
  lemma TakenOut(net: Net, air: seq<Transmission>, i: nat, c: Cipher)
    requires i < |air|
    ensures Weight(net, air, c) == Weight(net, air[..i] + air[i + 1..], c) + 1 + |Answerers(net, air[i], c)|
  {
    var a, b, t := air[..i], air[i + 1..], [air[i]];
    assert air == a + (t + b);
    WeightCat(net, a, t + b, c);
    WeightCat(net, t, b, c);
    WeightCat(net, a, b, c);
    SingleWeight(net, air[i], c);
  }

  lemma {:induction false} SubsetIsSmaller(a: set<U32>, b: set<U32>)
    requires a <= b
    ensures |a| <= |b| && (|a| == |b| ==> a == b)
    decreases |a|
  {
    if a == {} {
      assert b != {} ==> |b| > 0;
    } else {
      var x :| x in a;
      SubsetIsSmaller(a - {x}, b - {x});
      assert a == (a - {x}) + {x} && b == (b - {x}) + {x};
    }
  }

  /** One transmission is over: the gateways of `who`, whichever are in range, have answered if they
      heard it. */
  ghost function Heard(net: Net, air: seq<Transmission>, i: nat, who: seq<U32>, random: U32 -> Byte, c: Cipher)
    : seq<Transmission>
    requires Sound(c) && i < |air|
  {
    air[..i] + air[i + 1..] + AnswersOf(net, air[i], who, random, c)
  }

  lemma HearingWeighs(net: Net, air: seq<Transmission>, i: nat, who: seq<U32>, random: U32 -> Byte, c: Cipher)
    requires Sound(c) && i < |air| && AreDistinct(who)
    ensures AllClear(net, AnswersOf(net, air[i], who, random, c), c)
    ensures Weight(net, Heard(net, air, i, who, random, c), c) + 1 + |Answerers(net, air[i], c)|
      == Weight(net, air, c) + |Reached(net, air[i], who, c)|
  {
    var answers := AnswersOf(net, air[i], who, random, c);
    TakenOut(net, air, i, c);
    AnswersAreLight(net, air[i], who, random, c);
    LightWeight(net, answers, c);
    WeightCat(net, air[..i] + air[i + 1..], answers, c);
  }

  /** Every transmission makes the air lighter, by exactly 1 if and only if it reaches all who
      answer it. */
  lemma HearingLightens(net: Net, air: seq<Transmission>, i: nat, who: seq<U32>, random: U32 -> Byte, c: Cipher)
    requires Sound(c) && AllClear(net, air, c) && i < |air| && AreDistinct(who)
    ensures var after, t := Heard(net, air, i, who, random, c), air[i];
      && AllClear(net, after, c) && Weight(net, after, c) + 1 <= Weight(net, air, c)
      && (Weight(net, after, c) + 1 == Weight(net, air, c) <==> Answerers(net, t, c) == Reached(net, t, who, c))
  {
    HearingWeighs(net, air, i, who, random, c);
    ClearWithout(net, air, i, c);
    ClearCat(net, air[..i] + air[i + 1..], AnswersOf(net, air[i], who, random, c), c);
    SubsetIsSmaller(Reached(net, air[i], who, c), Answerers(net, air[i], c));
  }

  // ---------------------------------------------------------------- histories

  ghost predicate Steps(net: Net, air: seq<Transmission>, next: seq<Transmission>, c: Cipher)
    requires Sound(c)
  {
    exists i: nat, who: seq<U32>, random: U32 -> Byte ::
      i < |air| && AreDistinct(who) && Heard(net, air, i, who, random, c) == next
  }

  lemma StepLightens(net: Net, air: seq<Transmission>, next: seq<Transmission>, c: Cipher)
    requires Sound(c) && AllClear(net, air, c) && Steps(net, air, next, c)
    ensures AllClear(net, next, c) && Weight(net, next, c) + 1 <= Weight(net, air, c)
  {
    var i: nat, who: seq<U32>, random: U32 -> Byte :|
      i < |air| && AreDistinct(who) && Heard(net, air, i, who, random, c) == next;
    HearingLightens(net, air, i, who, random, c);
  }

  /** From the n-th state on, each state follows from the one before by some transmission. */
  ghost predicate History(net: Net, states: seq<seq<Transmission>>, n: nat, c: Cipher)
    requires Sound(c) && n < |states|
    decreases |states| - n
  {
    n + 1 < |states| ==> Steps(net, states[n], states[n + 1], c) && History(net, states, n + 1, c)
  }

  lemma {:induction false} HistoryLightens(net: Net, states: seq<seq<Transmission>>, n: nat, c: Cipher)
    requires Sound(c) && n < |states| && History(net, states, n, c) && AllClear(net, states[n], c)
    ensures |states| - 1 - n + Weight(net, states[|states| - 1], c) <= Weight(net, states[n], c)
    decreases |states| - n
  {
    if n + 1 < |states| {
      StepLightens(net, states[n], states[n + 1], c);
      HistoryLightens(net, states, n + 1, c);
    }
  }

  lemma {:induction false} WeightBound(net: Net, air: seq<Transmission>, c: Cipher)
    ensures |air| <= Weight(net, air, c) <= |air| * (1 + |net|)
    decreases |air|
  {
    if air != [] {
      WeightBound(net, air[..|air| - 1], c);
      FewAnswerers(net, air[|air| - 1], c);
      Distributes(|air| - 1, 1 + |net|);
    }
  }

  lemma FewAnswerers(net: Net, t: Transmission, c: Cipher)
    ensures |Answerers(net, t, c)| <= |net|
  {
    SubsetIsSmaller(Answerers(net, t, c), net.Keys);
    assert |net.Keys| == |net|;
  }

  lemma Distributes(n: nat, k: nat)
    ensures (n + 1) * k == n * k + k
  {
  }

  /** Whoever is in range of whom and whatever is transmitted in whatever order: if all who hear the
      first transmissions can read them, there are at most 1 + |net| transmissions for each of them,
      and after that many the air is empty. */
  lemma BroadcastsFallSilent(net: Net, states: seq<seq<Transmission>>, c: Cipher)
    requires Sound(c) && states != [] && History(net, states, 0, c) && AllClear(net, states[0], c)
    ensures var most := |states[0]| * (1 + |net|);
      |states| - 1 <= Weight(net, states[0], c) <= most && (|states| - 1 == most ==> states[|states| - 1] == [])
  {
    HistoryLightens(net, states, 0, c);
    WeightBound(net, states[0], c);
    WeightBound(net, states[|states| - 1], c);
  }
}
