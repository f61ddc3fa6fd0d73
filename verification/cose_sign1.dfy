/**
  COSE_Sign1 (RFC 8152 section 4.2) and its Sig_structure (section 4.4): what cbor.c
  is meant to write and to sign, and what a verifier makes of it.
 */
module CoseSign1 {
  import opened BigEndian
  import opened CborHead
  import opened EncoderSpec
  import opened CborForest
  import opened CborDecoder
  import opened PlainForest
  import opened PsaClaims
  import opened PsaLengths

  const HEADER_PARAM_ALG: int64 := 1
  const ALGORITHM_ES256: int64 := -7
  const TAG_COSE_SIGN1: uint64 := 18
  /** "Signature1" in ASCII. */
  const SIGNATURE1: bytes := [0x53, 0x69, 0x67, 0x6e, 0x61, 0x74, 0x75, 0x72, 0x65, 0x31]

  /** The map {1: -7}. */
  const PROTECTED: bytes := [0xa1, 0x01, 0x26]

  // ----- the three trees of cbor.c -----

  function ProtectedTree(): seq<Elem> {
    [Group(DefMap, Leaves(Entry(HEADER_PARAM_ALG, OpInt(ALGORITHM_ES256))))]
  }

  function TbsTree(protected: bytes, aad: bytes, payload: bytes): seq<Elem> {
    [Group(DefArray, Leaves([Text(SIGNATURE1), Bstr(protected), Bstr(aad), Bstr(payload)]))]
  }

  function CoseItems(protected: bytes, payload: bytes, signature: bytes): seq<Elem> {
    Leaves([Bstr(protected)]) + [Group(DefMap, [])] + Leaves([Bstr(payload), Bstr(signature)])
  }

  function CoseTree(protected: bytes, payload: bytes, signature: bytes): seq<Elem> {
    Leaves([OpTag(TAG_COSE_SIGN1)]) + [Group(DefArray, CoseItems(protected, payload, signature))]
  }

  function ProtectedCalls(): seq<Op> {
    [OpOpen(DefMap)] + Entry(HEADER_PARAM_ALG, OpInt(ALGORITHM_ES256)) + [OpClose(DefMap)]
  }

  function TbsCalls(protected: bytes, aad: bytes, payload: bytes): seq<Op> {
    [OpOpen(DefArray)] + [Text(SIGNATURE1), Bstr(protected), Bstr(aad), Bstr(payload)] + [OpClose(DefArray)]
  }

  function CoseCalls(protected: bytes, payload: bytes, signature: bytes): seq<Op> {
    [OpTag(TAG_COSE_SIGN1)] + ([OpOpen(DefArray)]
      + ([Bstr(protected)] + [OpOpen(DefMap), OpClose(DefMap)] + [Bstr(payload), Bstr(signature)])
        + [OpClose(DefArray)])
  }

  lemma ProtectedCallsAre()
    ensures Ops(ProtectedTree()) == ProtectedCalls()
  {
    hide Leaves;
    var ops := Entry(HEADER_PARAM_ALG, OpInt(ALGORITHM_ES256));
    LeavesAll(ops);
    GroupOps(DefMap, Leaves(ops));
    Single(Group(DefMap, Leaves(ops)));
  }

  lemma TbsCallsAre(protected: bytes, aad: bytes, payload: bytes)
    ensures Ops(TbsTree(protected, aad, payload)) == TbsCalls(protected, aad, payload)
  {
    hide Leaves;
    var ops := [Text(SIGNATURE1), Bstr(protected), Bstr(aad), Bstr(payload)];
    LeavesAll(ops);
    GroupOps(DefArray, Leaves(ops));
    Single(Group(DefArray, Leaves(ops)));
  }

  lemma CoseItemsAre(protected: bytes, payload: bytes, signature: bytes)
    ensures Ops(CoseItems(protected, payload, signature))
            == [Bstr(protected)] + [OpOpen(DefMap), OpClose(DefMap)] + [Bstr(payload), Bstr(signature)]
  {
    hide Leaves, Ops, ElemOps, SerialAll, Serial, Count;
    var empty := Group(DefMap, []);
    LeavesAll([Bstr(protected)]);
    LeavesAll([Bstr(payload), Bstr(signature)]);
    NoElems();
    GroupOps(DefMap, []);
    Single(empty);
    Concat(Leaves([Bstr(protected)]), [empty]);
    Concat(Leaves([Bstr(protected)]) + [empty], Leaves([Bstr(payload), Bstr(signature)]));
  }

  lemma CoseCallsAre(protected: bytes, payload: bytes, signature: bytes)
    ensures Ops(CoseTree(protected, payload, signature)) == CoseCalls(protected, payload, signature)
  {
    hide Leaves, Ops, ElemOps, SerialAll, Serial, Count, CoseItems;
    var g := Group(DefArray, CoseItems(protected, payload, signature));
    LeavesAll([OpTag(TAG_COSE_SIGN1)]);
    CoseItemsAre(protected, payload, signature);
    GroupOps(DefArray, CoseItems(protected, payload, signature));
    Single(g);
    Concat(Leaves([OpTag(TAG_COSE_SIGN1)]), [g]);
  }

  // ----- the bytes -----

  function ByteStringBytes(b: bytes): bytes {
    Head(BYTE_STRING, 0, |b|) + b
  }

  /** Sig_structure = ["Signature1", body_protected, external_aad, payload], written out. */
  function SigStructure(protected: bytes, aad: bytes, payload: bytes): bytes {
    [0x84] + ([0x6a] + Ascii("Signature1")) + ByteStringBytes(protected) + ByteStringBytes(aad)
      + ByteStringBytes(payload)
  }

  lemma ProtectedIsMap()
    ensures SerialAll(ProtectedTree()) == PROTECTED
  {
    var ops := Entry(HEADER_PARAM_ALG, OpInt(ALGORITHM_ES256));
    PlainCount(Leaves(ops), 0);
    LeavesAll(ops);
    TwoLeaves(OpInt(HEADER_PARAM_ALG), OpInt(ALGORITHM_ES256));
    hide Leaves, SerialAll, Count, LeavesBytes;
    Single(Group(DefMap, Leaves(ops)));
  }

  lemma TwoLeaves(a: Op, b: Op)
    ensures LeavesBytes([a, b]) == LeafBytes(a) + LeafBytes(b)
  {
    hide LeavesBytes, LeafBytes;
    OneLeaf(a);
    OneLeaf(b);
    LeavesBytesConcat([a], [b]);
    assert [a, b] == [a] + [b];
  }

  lemma StringLeaf(b: bytes)
    ensures LeafBytes(Bstr(b)) == ByteStringBytes(b)
  {
  }

  lemma ContextIs()
    ensures SIGNATURE1 == Ascii("Signature1")
  {
  }

  lemma ContextLeaf()
    ensures LeafBytes(Text(SIGNATURE1)) == [0x6a] + Ascii("Signature1")
  {
    ContextIs();
    assert Head(TEXT_STRING, 0, 10) == [0x6a];
  }

  lemma TbsTreeIs(protected: bytes, aad: bytes, payload: bytes)
    ensures TbsTree(protected, aad, payload)
            == [Group(DefArray, Leaves([Text(SIGNATURE1), Bstr(protected), Bstr(aad), Bstr(payload)]))]
  {
  }

  lemma SigStructureIs(protected: bytes, aad: bytes, payload: bytes)
    ensures SigStructure(protected, aad, payload)
         == [0x84] + ((([0x6a] + Ascii("Signature1")) + ByteStringBytes(protected))
           + (ByteStringBytes(aad) + ByteStringBytes(payload)))
  {
    hide ByteStringBytes;
  }

  /** What create_tbs writes is the Sig_structure of RFC 8152. */
  lemma TbsIsSigStructure(protected: bytes, aad: bytes, payload: bytes)
    ensures SerialAll(TbsTree(protected, aad, payload)) == SigStructure(protected, aad, payload)
  {
    var first, second := [Text(SIGNATURE1), Bstr(protected)], [Bstr(aad), Bstr(payload)];
    var ops := first + second;
    assert ops == [Text(SIGNATURE1), Bstr(protected), Bstr(aad), Bstr(payload)];
    PlainCount(Leaves(ops), 0);
    hide *;
    TbsTreeIs(protected, aad, payload);
    LeavesAll(ops);
    ContextLeaf();
    StringLeaf(protected);
    StringLeaf(aad);
    StringLeaf(payload);
    TwoLeaves(Text(SIGNATURE1), Bstr(protected));
    TwoLeaves(Bstr(aad), Bstr(payload));
    LeavesBytesConcat(first, second);
    Single(Group(DefArray, Leaves(ops)));
    ArrayOfFour(Leaves(ops));
    SigStructureIs(protected, aad, payload);
  }

  lemma ArrayOfFour(items: seq<Elem>)
    requires Count(items) == 4
    ensures Serial(Group(DefArray, items)) == [0x84] + SerialAll(items)
  {
    hide SerialAll, Count;
  }

  // ----- what a verifier reads -----

  /** The data item of a COSE_Sign1 with an empty unprotected header. */
  function CoseData(protected: bytes, payload: bytes, signature: bytes): Data {
    Tagged(18, Array([ByteString(protected), Map([], false), ByteString(payload), ByteString(signature)], false))
  }

  lemma CoseItemsMean(protected: bytes, payload: bytes, signature: bytes)
    requires |protected| <= SIZE_MAX && |payload| <= SIZE_MAX && |signature| <= SIZE_MAX
    ensures var items := CoseItems(protected, payload, signature);
            WellFormedAll(items) && MeaningAll(items) == CoseData(protected, payload, signature).content.items
  {
    hide Leaves, WellFormedAll, MeaningAll, SerialAll, Count;
    var p, e, q := Leaves([Bstr(protected)]), [Group(DefMap, [])], Leaves([Bstr(payload), Bstr(signature)]);
    NothingMeans();
    GroupMeans([]);
    LeavesWellFormed([Bstr(protected)]);
    LeavesWellFormed([Bstr(payload), Bstr(signature)]);
    WellFormedConcat(p, e);
    WellFormedConcat(p + e, q);
    assert MeaningAll(p) == [ByteString(protected)] && MeaningAll(q) == [ByteString(payload), ByteString(signature)];
  }

  lemma NothingMeans()
    ensures WellFormedAll([]) && MeaningAll([]) == []
  {
  }

  lemma CoseMeans(protected: bytes, payload: bytes, signature: bytes)
    requires |protected| <= SIZE_MAX && |payload| <= SIZE_MAX && |signature| <= SIZE_MAX
    ensures var f := CoseTree(protected, payload, signature);
            WellFormedAll(f) && MeaningAll(f) == [CoseData(protected, payload, signature)]
  {
    var items := CoseItems(protected, payload, signature);
    CoseItemsMean(protected, payload, signature);
    TaggedArrayMeans(items);
    assert Leaves([OpTag(TAG_COSE_SIGN1)]) == [Leaf(OpTag(TAG_COSE_SIGN1))];
  }

  lemma TaggedArrayMeans(items: seq<Elem>)
    requires WellFormedAll(items) && |MeaningAll(items)| <= SIZE_MAX
    ensures var f := [Leaf(OpTag(TAG_COSE_SIGN1))] + [Group(DefArray, items)];
            WellFormedAll(f) && MeaningAll(f) == [Tagged(18, Array(MeaningAll(items), false))]
  {
    var f := [Leaf(OpTag(TAG_COSE_SIGN1))] + [Group(DefArray, items)];
    assert f[1..] == [Group(DefArray, items)];
    MeaningCount(items);
    Single(Group(DefArray, items));
    SingleMeans(Group(DefArray, items));
  }

  /** A verifier takes the message apart and builds the Sig_structure of its parts anew. */
  datatype Verified = Verified(signed: bytes, signature: bytes) | Rejected

  function Rebuild(message: bytes): Verified {
    var d := DecodeSequence(message);
    if d.NotWellFormed? || |d.value| != 1 then Rejected
    else
      match d.value[0]
      case Tagged(tag, Array(parts, _)) =>
        if tag == 18 && |parts| == 4 && parts[0].ByteString? && parts[1].Map? && parts[2].ByteString?
          && parts[3].ByteString?
        then Verified(SigStructure(parts[0].b, [], parts[2].b), parts[3].b)
        else Rejected
      case _ => Rejected
  }

  /** The bytes it rebuilds are those that were to be signed, and the signature is the one put in. */
  lemma VerifierRebuildsSigned(protected: bytes, payload: bytes, signature: bytes)
    requires |protected| <= SIZE_MAX && |payload| <= SIZE_MAX && |signature| <= SIZE_MAX
    ensures Rebuild(SerialAll(CoseTree(protected, payload, signature)))
         == Verified(SerialAll(TbsTree(protected, [], payload)), signature)
  {
    hide CoseTree, TbsTree, SigStructure, DecodeSequence, SerialAll;
    CoseMeans(protected, payload, signature);
    DecodesForest(CoseTree(protected, payload, signature));
    TbsIsSigStructure(protected, [], payload);
  }

  /** Read back, it is the Sig_structure. */
  lemma TbsMeans(protected: bytes, aad: bytes, payload: bytes)
    requires |protected| <= SIZE_MAX && |aad| <= SIZE_MAX && |payload| <= SIZE_MAX
    ensures var f := TbsTree(protected, aad, payload);
            && WellFormedAll(f)
            && MeaningAll(f)
               == [Array([TextString(Ascii("Signature1")), ByteString(protected), ByteString(aad), ByteString(payload)],
                         false)]
  {
    ContextIs();
    var ops := [Text(SIGNATURE1), Bstr(protected), Bstr(aad), Bstr(payload)];
    var expected := [TextString(SIGNATURE1), ByteString(protected), ByteString(aad), ByteString(payload)];
    hide Leaves, WellFormedAll, MeaningAll, SerialAll, Count;
    LeavesWellFormed(ops);
    assert MeaningAll(Leaves(ops)) == expected;
    MeaningCount(Leaves(ops));
    SingleMeans(Group(DefArray, Leaves(ops)));
  }

  /** No two triples of protected parameters, additional data and payload are signed as the same bytes. */
  lemma TbsInjective(p: bytes, a: bytes, m: bytes, p': bytes, a': bytes, m': bytes)
    requires |p| <= SIZE_MAX && |a| <= SIZE_MAX && |m| <= SIZE_MAX && |p'| <= SIZE_MAX && |a'| <= SIZE_MAX
             && |m'| <= SIZE_MAX
    requires SerialAll(TbsTree(p, a, m)) == SerialAll(TbsTree(p', a', m'))
    ensures p == p' && a == a' && m == m'
  {
    hide TbsTree, SerialAll;
    TbsMeans(p, a, m);
    TbsMeans(p', a', m');
    SerializationInjective(TbsTree(p, a, m), TbsTree(p', a', m'));
    var d, e := MeaningAll(TbsTree(p, a, m))[0], MeaningAll(TbsTree(p', a', m'))[0];
    assert d.items[1] == e.items[1] && d.items[2] == e.items[2] && d.items[3] == e.items[3];
  }

  // ----- sizes -----

  lemma TbsLength(protected: bytes, aad: bytes, payload: bytes)
    ensures |SerialAll(TbsTree(protected, aad, payload))|
            == 12 + StringLength(|protected|) + StringLength(|aad|) + StringLength(|payload|)
  {
    TbsIsSigStructure(protected, aad, payload);
    hide TbsTree;
  }

  lemma CoseLength(protected: bytes, payload: bytes, signature: bytes)
    ensures |SerialAll(CoseTree(protected, payload, signature))|
            == 3 + StringLength(|protected|) + StringLength(|payload|) + StringLength(|signature|)
  {
    var items := CoseItems(protected, payload, signature);
    var tag := Leaves([OpTag(TAG_COSE_SIGN1)]);
    OneLeaf(OpTag(TAG_COSE_SIGN1));
    LeavesAll([OpTag(TAG_COSE_SIGN1)]);
    assert |LeafBytes(OpTag(TAG_COSE_SIGN1))| == 1;
    hide Leaves, SerialAll, Count, LeavesBytes, LeafBytes, CoseItems;
    CoseItemsLength(protected, payload, signature);
    ArrayOfFour(items);
    Single(Group(DefArray, items));
    Concat(tag, [Group(DefArray, items)]);
  }

  lemma CoseItemsLength(protected: bytes, payload: bytes, signature: bytes)
    ensures var items := CoseItems(protected, payload, signature);
            && Count(items) == 4
            && |SerialAll(items)| == 1 + StringLength(|protected|) + StringLength(|payload|) + StringLength(|signature|)
  {
    var p, empty, q := Leaves([Bstr(protected)]), Group(DefMap, []), Leaves([Bstr(payload), Bstr(signature)]);
    PlainCount(p, 0);
    PlainCount(q, 0);
    LeafLengths(0, protected);
    LeafLengths(0, payload);
    LeafLengths(0, signature);
    hide Leaves, SerialAll, Count, LeavesBytes, LeafBytes, StringLength;
    LeavesAll([Bstr(protected)]);
    LeavesAll([Bstr(payload), Bstr(signature)]);
    OneLeaf(Bstr(protected));
    TwoLeaves(Bstr(payload), Bstr(signature));
    NoElems();
    SmallMapLength([]);
    Single(empty);
    Concat(p, [empty]);
    Concat(p + [empty], q);
  }

  /**
    The buffers of remote_attestation.c and cbor.c are of 512 bytes: they hold all
    three encodings just for so much evidence.
   */
  lemma MessageFitsIff(evidence: bytes, signature: bytes)
    requires |signature| == 64
    ensures |evidence| <= 436 <==>
              && |evidence| <= 512
              && |SerialAll(TbsTree(PROTECTED, [], evidence))| <= 512
              && |SerialAll(CoseTree(PROTECTED, evidence, signature))| <= 512
  {
    hide SerialAll, TbsTree, CoseTree;
    TbsLength(PROTECTED, [], evidence);
    CoseLength(PROTECTED, evidence, signature);
  }

  /** For the claims of a device that is a bound on nonce, version and client id; nonces of up to 64 bytes keep it. */
  lemma AttestationFitsIff(c: Claims, signature: bytes)
    requires AsAttested(c) && |signature| == 64
    ensures var evidence := SerialAll(Token(c));
            && (VaryingLength(c) <= 162 <==>
                  && |evidence| <= 512
                  && |SerialAll(TbsTree(PROTECTED, [], evidence))| <= 512
                  && |SerialAll(CoseTree(PROTECTED, evidence, signature))| <= 512)
            && (|c.nonce| <= 64 ==> VaryingLength(c) <= 104)
  {
    hide SerialAll, TbsTree, CoseTree, Token;
    AttestedTokenLength(c);
    MessageFitsIff(SerialAll(Token(c)), signature);
  }

  // ----- fitting the encoder -----

  lemma OneGroupFits(kind: Kind, items: seq<Elem>)
    requires !kind.Indefinite() && FitAll(items, 0, 1, false)
    ensures FitAll([Group(kind, items)], 0, 0, false)
  {
    assert [Group(kind, items)] == [] + [Group(kind, items)];
    assert OpeningBytes(kind) == [] && FitAll([], 0, 0, false);
    NoElems();
    hide SerialAll, FitAll;
    SnocFits([], Group(kind, items), 0, 0);
  }

  lemma ProtectedFits()
    ensures FitAll(ProtectedTree(), 0, 0, false)
  {
    hide Leaves, FitAll;
    LeavesFit(Entry(HEADER_PARAM_ALG, OpInt(ALGORITHM_ES256)), 0, 1);
    OneGroupFits(DefMap, Leaves(Entry(HEADER_PARAM_ALG, OpInt(ALGORITHM_ES256))));
  }

  lemma TbsFits(protected: bytes, aad: bytes, payload: bytes)
    ensures FitAll(TbsTree(protected, aad, payload), 0, 0, false)
  {
    hide Leaves, FitAll;
    var ops := [Text(SIGNATURE1), Bstr(protected), Bstr(aad), Bstr(payload)];
    LeavesFit(ops, 0, 1);
    OneGroupFits(DefArray, Leaves(ops));
  }

  /** The one level that opens behind data of any length is the empty map behind the protected parameters. */
  lemma CoseFits(protected: bytes, payload: bytes, signature: bytes)
    requires 1 + StringLength(|protected|) < MAX_OFFSET
    ensures FitAll(CoseTree(protected, payload, signature), 0, 0, false)
  {
    var items := CoseItems(protected, payload, signature);
    var tag, g := [Leaf(OpTag(TAG_COSE_SIGN1))], Group(DefArray, items);
    assert CoseTree(protected, payload, signature) == tag + [g];
    hide Leaves, Serial, SerialAll, FitAll, CoseItems;
    TagFits();
    CoseItemsFit(protected, payload, signature);
    SnocFits(tag, g, 0, 0);
  }

  lemma SnocFits(front: seq<Elem>, last: Elem, pos: nat, depth: nat)
    requires FitAll(front, pos, depth, false) && Fits(last, pos + |SerialAll(front)|, depth, Count(front), false)
    ensures FitAll(front + [last], pos, depth, false)
    ensures SerialAll(front + [last]) == SerialAll(front) + Serial(last)
            && Count(front + [last]) == Count(front) + Weight(last)
  {
    hide *;
    AllSplit(front + [last], pos, depth, false);
    assert (front + [last])[..|front|] == front;
  }

  lemma TagFits()
    ensures var tag := [Leaf(OpTag(TAG_COSE_SIGN1))];
            FitAll(tag, 0, 0, false) && Count(tag) == 0 && |SerialAll(tag)| == 1
  {
    var tag := [Leaf(OpTag(TAG_COSE_SIGN1))];
    assert tag == [] + tag && FitAll([], 0, 0, false);
    SnocFits([], tag[0], 0, 0);
  }

  lemma CoseItemsFit(protected: bytes, payload: bytes, signature: bytes)
    requires 1 + StringLength(|protected|) < MAX_OFFSET
    ensures FitAll(CoseItems(protected, payload, signature), 1, 1, false)
  {
    var p, e := [Leaf(Bstr(protected))], Group(DefMap, []);
    assert CoseItems(protected, payload, signature) == ((p + [e]) + [Leaf(Bstr(payload))]) + [Leaf(Bstr(signature))];
    hide Leaves, Serial, SerialAll, FitAll, CoseItems, StringLength, Count;
    ProtectedItemFits(protected);
    EmptyMapFits(1 + |SerialAll(p)|);
    SnocFits(p, e, 1, 1);
    SnocFits(p + [e], Leaf(Bstr(payload)), 1, 1);
    SnocFits((p + [e]) + [Leaf(Bstr(payload))], Leaf(Bstr(signature)), 1, 1);
  }

  lemma ProtectedItemFits(protected: bytes)
    ensures var p := [Leaf(Bstr(protected))];
            FitAll(p, 1, 1, false) && Count(p) == 1 && |SerialAll(p)| == StringLength(|protected|)
  {
    LeafLengths(0, protected);
    assert Serial(Leaf(Bstr(protected))) == LeafBytes(Bstr(protected));
    assert FitAll([], 1, 1, false) && [Leaf(Bstr(protected))] == [] + [Leaf(Bstr(protected))];
    NoElems();
    hide Serial, SerialAll, FitAll, LeafBytes, StringLength;
    SnocFits([], Leaf(Bstr(protected)), 1, 1);
  }

  lemma EmptyMapFits(pos: nat)
    requires pos < MAX_OFFSET
    ensures Fits(Group(DefMap, []), pos, 1, 1, false)
  {
    assert FitAll([], pos, 2, false);
  }
}
