/**
  The PSA attestation token and the COSE_Sign1 around it as item trees: what the
  functions of cbor.c are meant to write, how long it is and what can be read back.
 */
module PsaClaims {
  import opened BigEndian
  import opened CborHead
  import opened EncoderSpec
  import opened CborForest
  import opened CborDecoder
  import opened PlainForest

  // claim keys of cbor.h
  const NONCE: int64 := 10
  const INSTANCE_ID: int64 := 256
  const PROFILE_DEFINITION: int64 := 265
  const CLIENT_ID: int64 := 2394
  const SECURITY_LIFECYCLE: int64 := 2395
  const IMPLEMENTATION_ID: int64 := 2396
  const SW_COMPONENTS: int64 := 2399
  const MEASUREMENT_TYPE: int64 := 1
  const MEASUREMENT_VALUE: int64 := 2
  const VERSION: int64 := 4
  const SIGNER_ID: int64 := 5

  type int32 = n: int | -0x8000_0000 <= n < 0x8000_0000

  datatype Version = NoVersion | Version(text: bytes)

  datatype Component = Component(measurementType: bytes, measurementValue: bytes, version: Version, signerId: bytes) {
    predicate Sized() {
      |measurementType| <= SIZE_MAX && |measurementValue| <= SIZE_MAX && |signerId| <= SIZE_MAX
        && (version.Version? ==> |version.text| <= SIZE_MAX)
    }
  }

  datatype Claims = Claims(profile: bytes, clientId: int32, lifecycle: int32, implementationId: bytes,
                           components: seq<Component>, nonce: bytes, instanceId: bytes) {
    /** Lengths are of type size_t. */
    predicate Sized() {
      && |profile| <= SIZE_MAX && |implementationId| <= SIZE_MAX && |nonce| <= SIZE_MAX && |instanceId| <= SIZE_MAX
      && |components| <= SIZE_MAX && forall i :: 0 <= i < |components| ==> components[i].Sized()
    }
  }

  function Text(b: bytes): Op {
    OpBuffer(TEXT_STRING, b)
  }

  function Bstr(b: bytes): Op {
    OpBuffer(BYTE_STRING, b)
  }

  function Entry(key: int64, value: Op): seq<Op> {
    [OpInt(key), value]
  }

  // ----- the token -----

  function ComponentOps(c: Component): seq<Op> {
    Entry(MEASUREMENT_TYPE, Text(c.measurementType))
    + Entry(MEASUREMENT_VALUE, Bstr(c.measurementValue))
    + (if c.version.Version? then Entry(VERSION, Text(c.version.text)) else [])
    + Entry(SIGNER_ID, Bstr(c.signerId))
  }

  function ComponentElem(c: Component): Elem {
    Group(DefMap, Leaves(ComponentOps(c)))
  }

  function ComponentElems(cs: seq<Component>): (es: seq<Elem>)
    ensures |es| == |cs| && forall i :: 0 <= i < |cs| ==> es[i] == ComponentElem(cs[i])
  {
    if cs == [] then [] else ComponentElems(cs[..|cs| - 1]) + [ComponentElem(cs[|cs| - 1])]
  }

  function OpsBeforeComponents(c: Claims): seq<Op> {
    Entry(PROFILE_DEFINITION, Text(c.profile))
    + Entry(CLIENT_ID, OpInt(c.clientId))
    + Entry(SECURITY_LIFECYCLE, OpInt(c.lifecycle))
    + Entry(IMPLEMENTATION_ID, Bstr(c.implementationId))
    + [OpInt(SW_COMPONENTS)]
  }

  function OpsAfterComponents(c: Claims): seq<Op> {
    Entry(NONCE, Bstr(c.nonce)) + Entry(INSTANCE_ID, Bstr(c.instanceId))
  }

  function TokenItems(c: Claims): seq<Elem> {
    Leaves(OpsBeforeComponents(c)) + [Group(DefArray, ComponentElems(c.components))] + Leaves(OpsAfterComponents(c))
  }

  function Token(c: Claims): seq<Elem> {
    [Group(DefMap, TokenItems(c))]
  }

  function ComponentCalls(cs: seq<Component>): seq<Op> {
    if cs == [] then []
    else ComponentCalls(cs[..|cs| - 1]) + [OpOpen(DefMap)] + ComponentOps(cs[|cs| - 1]) + [OpClose(DefMap)]
  }

  function TokenCalls(c: Claims): seq<Op> {
    [OpOpen(DefMap)] + OpsBeforeComponents(c) + [OpOpen(DefArray)] + ComponentCalls(c.components) + [OpClose(DefArray)]
    + OpsAfterComponents(c) + [OpClose(DefMap)]
  }

  lemma {:induction false} ComponentCallsAre(cs: seq<Component>)
    ensures Ops(ComponentElems(cs)) == ComponentCalls(cs)
  {
    hide ComponentOps, ElemOps, Serial, Leaves, ComponentElem;
    if cs != [] {
      hide Ops, SerialAll, Count;
      var front, last := cs[..|cs| - 1], cs[|cs| - 1];
      ComponentCallsAre(front);
      ComponentOpsAre(last);
      Single(ComponentElem(last));
      Concat(ComponentElems(front), [ComponentElem(last)]);
    } else {
      assert Ops([]) == [];
    }
  }

  lemma ComponentOpsAre(c: Component)
    ensures ElemOps(ComponentElem(c)) == [OpOpen(DefMap)] + ComponentOps(c) + [OpClose(DefMap)]
  {
    hide ComponentOps, Ops, ElemOps, SerialAll, Serial, Leaves;
    LeavesAll(ComponentOps(c));
    GroupOps(DefMap, Leaves(ComponentOps(c)));
  }

  lemma TokenCallsAre(c: Claims)
    ensures Ops(Token(c)) == TokenCalls(c)
  {
    hide Leaves, Ops, OpsBeforeComponents, OpsAfterComponents, ComponentElems, ComponentCalls, TokenItems;
    TokenItemsCalls(c);
    Single(Group(DefMap, TokenItems(c)));
    GroupOps(DefMap, TokenItems(c));
    hide SerialAll, Count, ElemOps;
  }

  lemma TokenItemsCalls(c: Claims)
    ensures Ops(TokenItems(c)) == OpsBeforeComponents(c)
            + ([OpOpen(DefArray)] + ComponentCalls(c.components) + [OpClose(DefArray)])
                                  + OpsAfterComponents(c)
  {
    var a, g, b := Leaves(OpsBeforeComponents(c)), Group(DefArray, ComponentElems(c.components)),
      Leaves(OpsAfterComponents(c));
    assert TokenItems(c) == a + [g] + b;
    hide *;
    LeavesAll(OpsBeforeComponents(c));
    LeavesAll(OpsAfterComponents(c));
    ComponentCallsAre(c.components);
    Single(g);
    Concat(a, [g]);
    Concat(a + [g], b);
    GroupOps(DefArray, ComponentElems(c.components));
  }

  lemma GroupOps(kind: Kind, items: seq<Elem>)
    ensures ElemOps(Group(kind, items)) == [OpOpen(kind)] + Ops(items) + [OpClose(kind)]
  {
  }

  // ----- reading the token back -----

  function ComponentData(c: Component): Data {
    Map([Unsigned(1), TextString(c.measurementType), Unsigned(2), ByteString(c.measurementValue)]
        + (if c.version.Version? then [Unsigned(4), TextString(c.version.text)] else [])
        + [Unsigned(5), ByteString(c.signerId)], false)
  }

  function ComponentsData(cs: seq<Component>): (ds: seq<Data>)
    ensures |ds| == |cs| && forall i :: 0 <= i < |cs| ==> ds[i] == ComponentData(cs[i])
  {
    seq(|cs|, i requires 0 <= i < |cs| => ComponentData(cs[i]))
  }

  function IntData(n: int): Data {
    if n < 0 then Negative(-1 - n) else Unsigned(n)
  }

  /** The token in the generic data model, as its draft describes it. */
  function TokenData(c: Claims): Data {
    Map([Unsigned(265), TextString(c.profile),
         Unsigned(2394), IntData(c.clientId),
         Unsigned(2395), IntData(c.lifecycle),
         Unsigned(2396), ByteString(c.implementationId),
         Unsigned(2399), Array(ComponentsData(c.components), false),
         Unsigned(10), ByteString(c.nonce),
         Unsigned(256), ByteString(c.instanceId)], false)
  }

  /** A map of entries with plain values. */
  lemma MapMeans(ops: seq<Op>)
    requires forall i :: 0 <= i < |ops| ==> WellFormed(Leaf(ops[i])) && !ops[i].OpTag?
    requires |ops| <= SIZE_MAX && |ops| % 2 == 0
    ensures WellFormed(Group(DefMap, Leaves(ops)))
    ensures Meaning(Group(DefMap, Leaves(ops)))
            == Map(seq(|ops|, i requires 0 <= i < |ops| => LeafMeaning(ops[i])), false)
  {
    hide LeafMeaning, Leaves;
    LeavesWellFormed(ops);
    MeaningCount(Leaves(ops));
  }

  lemma ComponentMeans(c: Component)
    requires c.Sized()
    ensures WellFormed(ComponentElem(c)) && Meaning(ComponentElem(c)) == ComponentData(c)
  {
    var ops := ComponentOps(c);
    hide Leaves, SerialAll, Count, WellFormedAll, MeaningAll, ArgumentWidth;
    assert forall i :: 0 <= i < |ops| ==> WellFormed(Leaf(ops[i])) && !ops[i].OpTag?;
    assert seq(|ops|, i requires 0 <= i < |ops| => LeafMeaning(ops[i])) == ComponentData(c).items;
    hide WellFormed, Meaning, LeafMeaning;
    MapMeans(ops);
  }

  lemma {:induction false} ComponentsMean(cs: seq<Component>)
    requires forall i :: 0 <= i < |cs| ==> cs[i].Sized()
    ensures WellFormedAll(ComponentElems(cs))
    ensures MeaningAll(ComponentElems(cs)) == ComponentsData(cs)
  {
    hide WellFormed, Meaning, ComponentData, ComponentElem;
    if cs != [] {
      hide *;
      var front, last := cs[..|cs| - 1], cs[|cs| - 1];
      ComponentsMean(front);
      ComponentMeans(last);
      OneCounts(last);
      SingleMeans(ComponentElem(last));
      WellFormedConcat(ComponentElems(front), [ComponentElem(last)]);
      ElemsSplit(cs);
    }
  }

  lemma OneCounts(c: Component)
    ensures Weight(ComponentElem(c)) == 1
  {
    hide Leaves;
  }

  lemma ElemsSplit(cs: seq<Component>)
    requires cs != []
    ensures var front, last := cs[..|cs| - 1], cs[|cs| - 1];
            && ComponentElems(cs) == ComponentElems(front) + [ComponentElem(last)]
            && ComponentsData(cs) == ComponentsData(front) + [ComponentData(last)]
  {
    hide ComponentElem, ComponentData;
  }

  function DataBeforeComponents(c: Claims): seq<Data> {
    [Unsigned(265), TextString(c.profile), Unsigned(2394), IntData(c.clientId), Unsigned(2395), IntData(c.lifecycle),
     Unsigned(2396), ByteString(c.implementationId), Unsigned(2399)]
  }

  lemma BeforeComponentsMeans(c: Claims)
    requires c.Sized()
    ensures WellFormedAll(Leaves(OpsBeforeComponents(c)))
            && MeaningAll(Leaves(OpsBeforeComponents(c))) == DataBeforeComponents(c)
  {
    var ops := OpsBeforeComponents(c);
    hide Leaves, SerialAll, Count, WellFormedAll, MeaningAll, ArgumentWidth;
    assert forall i :: 0 <= i < |ops| ==> WellFormed(Leaf(ops[i])) && !ops[i].OpTag?;
    assert seq(|ops|, i requires 0 <= i < |ops| => LeafMeaning(ops[i])) == DataBeforeComponents(c);
    hide WellFormed, LeafMeaning;
    LeavesWellFormed(ops);
  }

  lemma AfterComponentsMeans(c: Claims)
    requires c.Sized()
    ensures WellFormedAll(Leaves(OpsAfterComponents(c)))
    ensures MeaningAll(Leaves(OpsAfterComponents(c)))
            == [Unsigned(10), ByteString(c.nonce), Unsigned(256), ByteString(c.instanceId)]
  {
    var ops := OpsAfterComponents(c);
    hide Leaves, SerialAll, Count, WellFormedAll, MeaningAll, ArgumentWidth;
    assert seq(|ops|, i requires 0 <= i < |ops| => LeafMeaning(ops[i]))
           == [Unsigned(10), ByteString(c.nonce), Unsigned(256), ByteString(c.instanceId)];
    LeavesWellFormed(ops);
  }

  lemma ComponentArrayMeans(cs: seq<Component>)
    requires |cs| <= SIZE_MAX && forall i :: 0 <= i < |cs| ==> cs[i].Sized()
    ensures var g := Group(DefArray, ComponentElems(cs));
            && WellFormedAll([g])
            && MeaningAll([g]) == [Array(ComponentsData(cs), false)]
  {
    hide ComponentData, ComponentElem, ComponentElems, ComponentsData, SerialAll, WellFormedAll, MeaningAll, Count;
    ComponentsMean(cs);
    MeaningCount(ComponentElems(cs));
    SingleMeans(Group(DefArray, ComponentElems(cs)));
  }

  lemma SingleMeans(e: Elem)
    requires WellFormed(e) && Weight(e) == 1
    ensures WellFormedAll([e]) && MeaningAll([e]) == [Meaning(e)]
  {
    hide WellFormed, Meaning;
    assert [e][1..] == [] && WellFormedAll([]) && MeaningAll([]) == [];
  }

  lemma GroupMeans(items: seq<Elem>)
    requires WellFormedAll(items) && |MeaningAll(items)| % 2 == 0 && |MeaningAll(items)| <= SIZE_MAX
    ensures var g := [Group(DefMap, items)]; WellFormedAll(g) && MeaningAll(g) == [Map(MeaningAll(items), false)]
  {
    hide SerialAll, WellFormedAll, MeaningAll, Count;
    MeaningCount(items);
    SingleMeans(Group(DefMap, items));
  }

  lemma TokenMeans(c: Claims)
    requires c.Sized()
    ensures WellFormedAll(Token(c)) && MeaningAll(Token(c)) == [TokenData(c)]
  {
    hide Leaves, ComponentElems, ComponentsData, OpsBeforeComponents, OpsAfterComponents, WellFormedAll, MeaningAll,
      IntData;
    var a, g, b := Leaves(OpsBeforeComponents(c)), Group(DefArray, ComponentElems(c.components)),
      Leaves(OpsAfterComponents(c));
    BeforeComponentsMeans(c);
    AfterComponentsMeans(c);
    ComponentArrayMeans(c.components);
    WellFormedConcat(a, [g]);
    WellFormedConcat(a + [g], b);
    var after := [Unsigned(10), ByteString(c.nonce), Unsigned(256), ByteString(c.instanceId)];
    assert TokenData(c).items == DataBeforeComponents(c) + [Array(ComponentsData(c.components), false)] + after;
    GroupMeans(TokenItems(c));
  }

  lemma ComponentDataInjective(c: Component, d: Component)
    requires ComponentData(c) == ComponentData(d)
    ensures c == d
  {
    var p, q := ComponentData(c).items, ComponentData(d).items;
    assert p[1] == q[1] && p[3] == q[3] && p[4] == q[4] && p[5] == q[5];
    if c.version.Version? {
      assert p[7] == q[7];
    }
  }

  lemma TokenDataInjective(c: Claims, d: Claims)
    requires TokenData(c) == TokenData(d)
    ensures c == d
  {
    var p, q := TokenData(c).items, TokenData(d).items;
    assert p[1] == q[1] && p[3] == q[3] && p[5] == q[5] && p[7] == q[7] && p[9] == q[9] && p[11] == q[11]
           && p[13] == q[13];
    var k := |c.components|;
    assert k == |d.components|;
    forall i | 0 <= i < k ensures c.components[i] == d.components[i] {
      assert p[9].items[i] == q[9].items[i];
      ComponentDataInjective(c.components[i], d.components[i]);
    }
  }

  /** Equal tokens carry equal claims. */
  lemma TokenInjective(c: Claims, d: Claims)
    requires c.Sized() && d.Sized() && SerialAll(Token(c)) == SerialAll(Token(d))
    ensures c == d
  {
    TokenMeans(c);
    TokenMeans(d);
    SerializationInjective(Token(c), Token(d));
    TokenDataInjective(c, d);
  }
}
