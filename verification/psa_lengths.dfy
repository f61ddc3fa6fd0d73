/**
  How long the PSA token is: a closed form, and its bound for the claims that
  remote_attestation.c puts in.
 */
module PsaLengths {
  import opened BigEndian
  import opened CborHead
  import opened EncoderSpec
  import opened CborForest
  import opened PlainForest
  import opened PsaClaims

  function IntLength(n: int): nat {
    1 + ArgumentWidth(0, if n < 0 then -1 - n else n)
  }

  function StringLength(n: nat): nat {
    1 + ArgumentWidth(0, n) + n
  }

  lemma LeafLengths(n: int64, b: bytes)
    ensures |LeafBytes(OpInt(n))| == IntLength(n)
    ensures |LeafBytes(Bstr(b))| == |LeafBytes(Text(b))| == StringLength(|b|)
  {
  }

  lemma {:induction false} LeavesBytesConcat(a: seq<Op>, b: seq<Op>)
    ensures LeavesBytes(a + b) == LeavesBytes(a) + LeavesBytes(b)
    decreases |b|
  {
    hide LeafBytes;
    if b == [] {
      assert a + b == a;
    } else {
      var front, last := b[..|b| - 1], LeafBytes(b[|b| - 1]);
      LeavesBytesConcat(a, front);
      assert (a + b)[..|a + b| - 1] == a + front;
      assert (LeavesBytes(a) + LeavesBytes(front)) + last == LeavesBytes(a) + (LeavesBytes(front) + last);
    }
  }

  lemma EntryLength(key: int64, op: Op)
    ensures |LeavesBytes(Entry(key, op))| == IntLength(key) + |LeafBytes(op)|
  {
    hide LeafBytes, LeavesBytes;
    LeafLengths(key, []);
    LeavesBytesConcat([OpInt(key)], [op]);
    OneLeaf(OpInt(key));
    OneLeaf(op);
    assert Entry(key, op) == [OpInt(key)] + [op];
  }

  function ComponentLength(c: Component): nat {
    1 + (1 + StringLength(|c.measurementType|)) + (1 + StringLength(|c.measurementValue|))
    + (if c.version.Version? then 1 + StringLength(|c.version.text|) else 0) + (1 + StringLength(|c.signerId|))
  }

  function ComponentsLength(cs: seq<Component>): nat {
    if cs == [] then 0 else ComponentsLength(cs[..|cs| - 1]) + ComponentLength(cs[|cs| - 1])
  }

  function TokenLength(c: Claims): nat {
    1 + (3 + StringLength(|c.profile|)) + (3 + IntLength(c.clientId)) + (3 + IntLength(c.lifecycle))
    + (3 + StringLength(|c.implementationId|)) + 3 + (IntLength(|c.components|) + ComponentsLength(c.components))
    + (1 + StringLength(|c.nonce|)) + (3 + StringLength(|c.instanceId|))
  }

  lemma ComponentIsLong(c: Component)
    ensures |Serial(ComponentElem(c))| == ComponentLength(c)
  {
    var t, v, s := Entry(MEASUREMENT_TYPE, Text(c.measurementType)), Entry(MEASUREMENT_VALUE, Bstr(c.measurementValue)),
      Entry(SIGNER_ID, Bstr(c.signerId));
    var w := if c.version.Version? then Entry(VERSION, Text(c.version.text)) else [];
    var ops := ComponentOps(c);
    PlainCount(Leaves(ops), 0);
    LeavesAll(ops);
    hide LeavesBytes, LeafBytes, SerialAll, Leaves, Count;
    LeavesBytesConcat(t, v);
    LeavesBytesConcat(t + v, w);
    LeavesBytesConcat(t + v + w, s);
    EntryLength(MEASUREMENT_TYPE, Text(c.measurementType));
    EntryLength(MEASUREMENT_VALUE, Bstr(c.measurementValue));
    EntryLength(SIGNER_ID, Bstr(c.signerId));
    LeafLengths(0, c.measurementType);
    LeafLengths(0, c.measurementValue);
    LeafLengths(0, c.signerId);
    if c.version.Version? {
      EntryLength(VERSION, Text(c.version.text));
      LeafLengths(0, c.version.text);
    } else {
      NoLeaves();
    }
    SmallMapLength(Leaves(ops));
  }

  lemma NoLeaves()
    ensures LeavesBytes([]) == []
  {
  }

  lemma SmallMapLength(items: seq<Elem>)
    requires Count(items) < 48
    ensures |Serial(Group(DefMap, items))| == 1 + |SerialAll(items)|
  {
    hide SerialAll, Count;
  }

  lemma {:induction false} ComponentsAreLong(cs: seq<Component>)
    ensures |SerialAll(ComponentElems(cs))| == ComponentsLength(cs) && Count(ComponentElems(cs)) == |cs|
  {
    if cs != [] {
      hide Serial, ComponentLength;
      var front, last := cs[..|cs| - 1], cs[|cs| - 1];
      ComponentsAreLong(front);
      ComponentIsLong(last);
      Single(ComponentElem(last));
      Concat(ComponentElems(front), [ComponentElem(last)]);
    }
  }

  lemma BeforeLength(c: Claims)
    ensures |LeavesBytes(OpsBeforeComponents(c))| ==
      (3 + StringLength(|c.profile|)) + (3 + IntLength(c.clientId)) + (3 + IntLength(c.lifecycle))
        + (3 + StringLength(|c.implementationId|)) + 3
  {
    hide LeavesBytes, LeafBytes;
    var p, q := Entry(PROFILE_DEFINITION, Text(c.profile)), Entry(CLIENT_ID, OpInt(c.clientId));
    var r, s := Entry(SECURITY_LIFECYCLE, OpInt(c.lifecycle)), Entry(IMPLEMENTATION_ID, Bstr(c.implementationId));
    LeavesBytesConcat(p, q);
    LeavesBytesConcat(p + q, r);
    LeavesBytesConcat(p + q + r, s);
    LeavesBytesConcat(p + q + r + s, [OpInt(SW_COMPONENTS)]);
    EntryLength(PROFILE_DEFINITION, Text(c.profile));
    EntryLength(CLIENT_ID, OpInt(c.clientId));
    EntryLength(SECURITY_LIFECYCLE, OpInt(c.lifecycle));
    EntryLength(IMPLEMENTATION_ID, Bstr(c.implementationId));
    OneLeaf(OpInt(SW_COMPONENTS));
    LeafLengths(SW_COMPONENTS, c.profile);
    LeafLengths(c.clientId, c.implementationId);
    LeafLengths(c.lifecycle, []);
  }

  lemma OneLeaf(op: Op)
    ensures LeavesBytes([op]) == LeafBytes(op)
  {
    assert [op][..0] == [];
  }

  lemma AfterLength(c: Claims)
    ensures |LeavesBytes(OpsAfterComponents(c))| == (1 + StringLength(|c.nonce|)) + (3 + StringLength(|c.instanceId|))
  {
    hide LeavesBytes, LeafBytes;
    LeavesBytesConcat(Entry(NONCE, Bstr(c.nonce)), Entry(INSTANCE_ID, Bstr(c.instanceId)));
    EntryLength(NONCE, Bstr(c.nonce));
    EntryLength(INSTANCE_ID, Bstr(c.instanceId));
    LeafLengths(0, c.nonce);
    LeafLengths(0, c.instanceId);
  }

  /** The closed form. */
  lemma TokenIsLong(c: Claims)
    ensures |SerialAll(Token(c))| == TokenLength(c)
  {
    hide SerialAll, Count, ComponentsLength, TokenItems, Serial, IntLength, StringLength;
    TokenItemsAreLong(c);
    SmallMapLength(TokenItems(c));
    Single(Group(DefMap, TokenItems(c)));
  }

  lemma TokenItemsAreLong(c: Claims)
    ensures Count(TokenItems(c)) == 14
    ensures |SerialAll(TokenItems(c))|
            == |LeavesBytes(OpsBeforeComponents(c))| + ArrayLength(c) + |LeavesBytes(OpsAfterComponents(c))|
    ensures 1 + |SerialAll(TokenItems(c))| == TokenLength(c)
  {
    var a, g, b := Leaves(OpsBeforeComponents(c)), Group(DefArray, ComponentElems(c.components)),
      Leaves(OpsAfterComponents(c));
    AroundCount(c);
    assert TokenItems(c) == a + [g] + b;
    BeforeLength(c);
    AfterLength(c);
    assert 1 + |LeavesBytes(OpsBeforeComponents(c))| + ArrayLength(c) + |LeavesBytes(OpsAfterComponents(c))|
           == TokenLength(c) by {
      hide LeavesBytes, ComponentsLength, IntLength, StringLength, OpsBeforeComponents, OpsAfterComponents;
    }
    hide *;
    LeavesAll(OpsBeforeComponents(c));
    LeavesAll(OpsAfterComponents(c));
    ArrayIsLong(c);
    Concat(a, [g]);
    Concat(a + [g], b);
  }

  lemma AroundCount(c: Claims)
    ensures Count(Leaves(OpsBeforeComponents(c))) == 9 && Count(Leaves(OpsAfterComponents(c))) == 4
  {
    PlainCount(Leaves(OpsBeforeComponents(c)), 0);
    PlainCount(Leaves(OpsAfterComponents(c)), 0);
  }

  function ArrayLength(c: Claims): nat {
    IntLength(|c.components|) + ComponentsLength(c.components)
  }

  lemma ArrayIsLong(c: Claims)
    ensures var g := [Group(DefArray, ComponentElems(c.components))]; |SerialAll(g)| == ArrayLength(c) && Count(g) == 1
  {
    hide SerialAll, Count, ComponentsLength, ComponentElems;
    ComponentsAreLong(c.components);
    Single(Group(DefArray, ComponentElems(c.components)));
  }

  /**
    The claims as remote_attestation.c:257-316 fills them in: the lifecycle is one of
    the three that the fuses stand for, and a nonce is of any length but not empty.
   */
  predicate AsAttested(c: Claims) {
    && |c.profile| == 24 && |c.implementationId| == 32 && |c.instanceId| == 33 && c.nonce != []
    && (c.lifecycle == 0x1000 || c.lifecycle == 0x2000 || c.lifecycle == 0x3000)
    && |c.components| == 2 && AttestedComponent(c.components[0]) && AttestedComponent(c.components[1])
    && c.components[0].version == NoVersion
    && c.components[1].version.Version? && |c.components[1].version.text| <= 31
  }

  predicate AttestedComponent(c: Component) {
    |c.measurementType| == 4 && |c.measurementValue| == 32 && |c.signerId| == 32
  }

  /** Profile and types of the two components, the application without a version and the core with one of 31 bytes. */
  lemma FilledInIsAttested(clientId: int32, lifecycle: int32, implementationId: bytes, application: bytes, core: bytes,
                           version: bytes, signerId: bytes, nonce: bytes, instanceId: bytes)
    requires lifecycle in {0x1000, 0x2000, 0x3000} && nonce != [] && |version| <= 31
    requires |implementationId| == |application| == |core| == |signerId| == 32 && |instanceId| == 33
    ensures AsAttested(Claims(Ascii("http://arm.com/psa/2.0.0"), clientId, lifecycle, implementationId,
                              [Component(Ascii("ARoT"), application, NoVersion, signerId),
                               Component(Ascii("PRoT"), core, Version(version), signerId)], nonce, instanceId))
  {
  }

  /** What the caller and the build contribute to the length. */
  function VaryingLength(c: Claims): nat
    requires AsAttested(c)
  {
    IntLength(c.clientId) + StringLength(|c.components[1].version.text|) + StringLength(|c.nonce|)
  }

  lemma AttestedTokenLength(c: Claims)
    requires AsAttested(c)
    ensures |SerialAll(Token(c))| == 274 + VaryingLength(c)
    ensures |c.nonce| <= 64 ==> |SerialAll(Token(c))| <= 378
  {
    TokenIsLong(c);
    TwoComponents(c.components[0], c.components[1]);
    assert c.components == [c.components[0], c.components[1]];
    hide SerialAll, Token, ComponentsLength;
  }

  lemma TwoComponents(c: Component, d: Component)
    ensures ComponentsLength([c, d]) == ComponentLength(c) + ComponentLength(d)
  {
    hide ComponentLength;
    assert [c, d][..1] == [c] && [c][..0] == [];
    assert ComponentsLength([c]) == ComponentLength(c);
  }

  lemma LeavesPlain(ops: seq<Op>, height: nat)
    requires forall i :: 0 <= i < |ops| ==> ops[i].OpInt? || ops[i].OpBuffer?
    ensures PlainAll(Leaves(ops), height)
  {
    hide Leaves;
    forall i | 0 <= i < |ops| ensures Plain(Leaves(ops)[i], height) {
    }
  }
}
