/**
  cbor.c: driving an encoder call by call to write the token, the protected
  parameters, the bytes to be signed and the COSE_Sign1.
 */
module Attestation {
  import opened BigEndian
  import opened UsefulBuf
  import opened EncoderSpec
  import opened CborForest
  import opened PlainForest
  import opened PsaClaims
  import opened PsaLengths
  import opened TokenLimit
  import opened CoseSign1
  import opened QcborEncode
  import opened QcborWrappers

  const SIGNATURE_SIZE: nat := 64

  /** struct psa_sw_component: strings without their terminators; a version may be absent. */
  datatype SwComponent = SwComponent(measurementType: UsefulBufC,
    measurementValue: UsefulBufC, version: OptionalBuf, signerId: UsefulBufC)

  datatype OptionalBuf = Absent | Present(b: UsefulBufC)

  /** What is pointed to. */
  ghost predicate Holds(b: UsefulBufC, value: bytes)
    reads if b.ptr == null then {} else {b.ptr}
  {
    b.InBounds() && b.Value() == value
  }

  ghost predicate Apart(b: UsefulBufC, buffer: array<byte>) {
    b.ptr != buffer && (b.ptr != null || b.len == 0)
  }

  /** What a buffer holds can be added to an encoder, and no call of it changes that. */
  ghost predicate Usable(c: EncodeContext, b: UsefulBufC, value: bytes)
    reads if b.ptr == null then {} else {b.ptr}
  {
    Holds(b, value) && c.Source(b) && (b.ptr != null ==> b.ptr !in c.Repr())
  }

  ghost predicate UsableComponent(c: EncodeContext, component: SwComponent, value: Component)
    reads Pointers(component)
  {
    && Usable(c, component.measurementType, value.measurementType)
       && Usable(c, component.measurementValue, value.measurementValue)
    && Usable(c, component.signerId, value.signerId)
    && (if component.version.Absent? then value.version == NoVersion
        else value.version.Version? && Usable(c, component.version.b, value.version.text))
  }

  method AddTextEntry(c: EncodeContext, key: int64, text: UsefulBufC, ghost value: bytes, ghost calls: seq<Op>)
    returns (ghost more: seq<Op>)
    requires Ran(c, calls) && Usable(c, text, value)
    modifies c.Repr()
    ensures Ran(c, more) && more == calls + Entry(key, Text(value)) && Usable(c, text, value)
  {
    more := AddTextToMapN(c, key, text, calls);
  }

  method AddBytesEntry(c: EncodeContext, key: int64, bs: UsefulBufC, ghost value: bytes, ghost calls: seq<Op>)
    returns (ghost more: seq<Op>)
    requires Ran(c, calls) && Usable(c, bs, value)
    modifies c.Repr()
    ensures Ran(c, more) && more == calls + Entry(key, Bstr(value)) && Usable(c, bs, value)
  {
    more := AddBytesToMapN(c, key, bs, calls);
  }

  ghost function Pointers(c: SwComponent): set<object> {
    (if c.measurementType.ptr == null then {} else {c.measurementType.ptr})
    + (if c.measurementValue.ptr == null then {} else {c.measurementValue.ptr})
    + (if c.version.Absent? || c.version.b.ptr == null then {} else {c.version.b.ptr})
    + (if c.signerId.ptr == null then {} else {c.signerId.ptr})
  }

  ghost predicate HoldsComponent(c: SwComponent, value: Component)
    reads Pointers(c)
  {
    && Holds(c.measurementType, value.measurementType) && Holds(c.measurementValue, value.measurementValue)
    && Holds(c.signerId, value.signerId)
    && (if c.version.Absent? then value.version == NoVersion
       else value.version.Version? && Holds(c.version.b, value.version.text))
  }

  ghost predicate HoldComponents(components: seq<SwComponent>, values: seq<Component>)
    reads set i, o | 0 <= i < |components| && o in Pointers(components[i]) :: o
  {
    |components| == |values| && forall i :: 0 <= i < |components| ==> HoldsComponent(components[i], values[i])
  }

  ghost predicate ComponentApart(c: SwComponent, buffer: array<byte>) {
    && Apart(c.measurementType, buffer) && Apart(c.measurementValue, buffer) && Apart(c.signerId, buffer)
    && (c.version.Present? ==> Apart(c.version.b, buffer))
  }

  /** A buffer gets exactly these bytes; when they do not fit, the null buffer is returned. */
  ghost predicate Delivered(r: UsefulBufC, buffer: array<byte>, bs: bytes)
    reads buffer
  {
    if |bs| <= buffer.Length then r == UsefulBufC(buffer, 0, |bs|) && buffer[..|bs|] == bs
    else r == NULL_USEFUL_BUF
  }

  /** What a Finish makes of a run; the functions of cbor.c hand it on. */
  ghost predicate Outcome(r: UsefulBufC, buffer: array<byte>, calls: seq<Op>)
    reads buffer
  {
    var s := Run(Init(buffer.Length), calls);
    if FinishError(s) == Success then r == UsefulBufC(buffer, 0, |s.data|) && r.InBounds() && r.Value() == s.data
    else r == NULL_USEFUL_BUF
  }

  lemma ForestDelivered(r: UsefulBufC, buffer: array<byte>, f: seq<Elem>)
    requires Outcome(r, buffer, Ops(f)) && FitAll(f, 0, 0, false)
    ensures Delivered(r, buffer, SerialAll(f))
  {
    hide Run, Ops, FitAll, SerialAll, Init, FinishError;
    FitsExactly(f, buffer.Length);
  }

  lemma EvidenceDelivered(r: UsefulBufC, buffer: array<byte>, claims: Claims)
    requires Outcome(r, buffer, TokenCalls(claims))
    ensures LastOpen(claims) < MAX_OFFSET ==> Delivered(r, buffer, EvidenceBytes(claims))
    ensures LastOpen(claims) >= MAX_OFFSET ==> r == NULL_USEFUL_BUF
    ensures LastOpen(claims) < MAX_OFFSET && |claims.components| <= MOST ==>
              Delivered(r, buffer, SerialAll(Token(claims)))
  {
    hide Run, TokenCalls, TokenLength, EvidenceBytes, Token, SerialAll, Init, FinishError, LastOpen;
    EvidenceExactly(claims, buffer.Length);
  }

  method FinishOrNull(c: EncodeContext, buffer: array<byte>, ghost calls: seq<Op>) returns (r: UsefulBufC)
    requires Ran(c, calls) && c.outBuf.storage == buffer && c.outBuf.capacity == buffer.Length
    modifies c.Repr()
    ensures Outcome(r, buffer, calls)
  {
    hide Run, Init, FinishError;
    var err, encoded := c.Finish(NULL_USEFUL_BUF);
    if err != Success {
      return NULL_USEFUL_BUF;
    } else {
      return encoded;
    }
  }

  /** One turn of the loop over the software components. */
  method AddComponent(c: EncodeContext, component: SwComponent, ghost value: Component, ghost calls: seq<Op>)
    returns (ghost more: seq<Op>)
    requires Ran(c, calls) && UsableComponent(c, component, value)
    modifies c.Repr()
    ensures Ran(c, more) && more == calls + ([OpOpen(DefMap)] + ComponentOps(value) + [OpClose(DefMap)])
  {
    hide Ran, Text, Bstr, Entry, Holds, UsefulBufC.InBounds, EncodeContext.Repr, EncodeContext.Source;
    more := Open(c, DefMap, calls);
    more := AddTextEntry(c, MEASUREMENT_TYPE, component.measurementType, value.measurementType, more);
    more := AddBytesEntry(c, MEASUREMENT_VALUE, component.measurementValue, value.measurementValue, more);
    if component.version.Present? {
      more := AddTextEntry(c, VERSION, component.version.b, value.version.text, more);
    }
    more := AddBytesEntry(c, SIGNER_ID, component.signerId, value.signerId, more);
    more := Close(c, DefMap, more);
  }

  /** Calls change nothing outside of the context. */
  ghost predicate Remain(c: EncodeContext, components: seq<SwComponent>, values: seq<Component>)
    reads set i, o | 0 <= i < |components| && o in Pointers(components[i]) :: o
  {
    && |components| == |values|
    && forall i :: 0 <= i < |components| ==>
         UsableComponent(c, components[i], values[i]) && Pointers(components[i]) !! c.Repr()
  }

  /** The loop over the software components. */
  method AddComponents(c: EncodeContext, components: seq<SwComponent>, ghost claims: Claims, ghost calls: seq<Op>)
    returns (ghost more: seq<Op>)
    requires Ran(c, calls) && calls == CallsUpTo(claims, 0) && |components| == |claims.components|
    requires Remain(c, components, claims.components)
    modifies c.Repr()
    ensures Ran(c, more) && more == CallsUpTo(claims, |components|)
  {
    hide EncodeContext.Repr, Ran, UsableComponent, CallsUpTo, ComponentOps;
    more := calls;
    var i := 0;
    while i < |components|
      invariant 0 <= i <= |components|
      invariant Ran(c, more) && more == CallsUpTo(claims, i)
      invariant Remain(c, components, claims.components)
    {
      more := AddComponent(c, components[i], claims.components[i], more);
      OneMoreComponent(claims, i);
      i := i + 1;
    }
  }

  method AddClaimsBefore(c: EncodeContext, profile: UsefulBufC, clientId: int32, lifecycle: int32,
                         implementationId: UsefulBufC, ghost claims: Claims)
    returns (ghost calls: seq<Op>)
    requires Ran(c, []) && Usable(c, profile, claims.profile) && Usable(c, implementationId, claims.implementationId)
    requires claims.clientId == clientId && claims.lifecycle == lifecycle
    modifies c.Repr()
    ensures Ran(c, calls) && calls == CallsUpTo(claims, 0)
  {
    hide Ran, Text, Bstr, Entry, Holds, UsefulBufC.InBounds, EncodeContext.Repr, EncodeContext.Source, CallsUpTo;
    calls := Open(c, DefMap, []);
    calls := AddTextEntry(c, PROFILE_DEFINITION, profile, claims.profile, calls);
    calls := AddInt64ToMapN(c, CLIENT_ID, clientId, calls);
    calls := AddInt64ToMapN(c, SECURITY_LIFECYCLE, lifecycle, calls);
    calls := AddBytesEntry(c, IMPLEMENTATION_ID, implementationId, claims.implementationId, calls);
    calls := OpenArrayInMapN(c, SW_COMPONENTS, calls);
    CallsBefore(claims, calls);
  }

  method AddClaimsAfter(c: EncodeContext, nonce: UsefulBufC, instanceId: UsefulBufC, ghost claims: Claims,
                        ghost calls: seq<Op>)
    returns (ghost more: seq<Op>)
    requires Ran(c, calls) && calls == CallsUpTo(claims, |claims.components|)
    requires Usable(c, nonce, claims.nonce) && Usable(c, instanceId, claims.instanceId)
    modifies c.Repr()
    ensures Ran(c, more) && more == TokenCalls(claims)
  {
    hide Ran, Text, Bstr, Entry, Holds, UsefulBufC.InBounds, EncodeContext.Repr, EncodeContext.Source, CallsUpTo,
      TokenCalls;
    more := Close(c, DefArray, calls);
    more := AddBytesEntry(c, NONCE, nonce, claims.nonce, more);
    more := AddBytesEntry(c, INSTANCE_ID, instanceId, claims.instanceId, more);
    more := Close(c, DefMap, more);
    CallsAfter(claims, more);
  }

  method NewContext(buffer: array<byte>) returns (c: EncodeContext)
    requires buffer.Length <= SIZE_MAX
    ensures Ran(c, []) && c.outBuf.storage == buffer && c.outBuf.capacity == buffer.Length && fresh(c.Repr() - {buffer})
  {
    c := new EncodeContext(buffer, buffer.Length);
  }

  lemma BufferUsable(c: EncodeContext, b: UsefulBufC, value: bytes, buffer: array<byte>)
    requires c.outBuf.storage == buffer && Holds(b, value) && Apart(b, buffer)
    requires b.ptr != null ==> b.ptr !in c.Repr() - {buffer}
    ensures Usable(c, b, value)
  {
  }

  lemma ComponentsUsable(c: EncodeContext, components: seq<SwComponent>, values: seq<Component>, buffer: array<byte>)
    requires c.outBuf.storage == buffer && HoldComponents(components, values)
    requires forall i :: 0 <= i < |components| ==> ComponentApart(components[i], buffer)
    requires forall i :: 0 <= i < |components| ==> Pointers(components[i]) !! c.Repr() - {buffer}
    ensures Remain(c, components, values)
  {
    hide EncodeContext.Repr;
  }

  method AddClaims(c: EncodeContext, profile: UsefulBufC, clientId: int32, lifecycle: int32,
                   implementationId: UsefulBufC, components: seq<SwComponent>, instanceId: UsefulBufC,
                   nonce: UsefulBufC, ghost claims: Claims)
    returns (ghost calls: seq<Op>)
    requires Ran(c, []) && Usable(c, profile, claims.profile) && Usable(c, implementationId, claims.implementationId)
    requires claims.clientId == clientId && claims.lifecycle == lifecycle
    requires Remain(c, components, claims.components)
    requires Usable(c, nonce, claims.nonce) && Usable(c, instanceId, claims.instanceId)
    modifies c.Repr()
    ensures Ran(c, calls) && calls == TokenCalls(claims)
  {
    hide EncodeContext.Repr, EncodeContext.Source, Ran, UsableComponent, CallsUpTo, TokenCalls;
    calls := AddClaimsBefore(c, profile, clientId, lifecycle, implementationId, claims);
    calls := AddComponents(c, components, claims, calls);
    calls := AddClaimsAfter(c, nonce, instanceId, claims, calls);
  }

  /** encode_evidence_to_cbor: the token of the claims, or the null buffer. */
  method EncodeEvidence(profile: UsefulBufC, clientId: int32, lifecycle: int32, implementationId: UsefulBufC,
                        components: seq<SwComponent>, instanceId: UsefulBufC, nonce: UsefulBufC, buffer: array<byte>,
                        ghost claims: Claims)
    returns (evidence: UsefulBufC)
    requires buffer.Length <= SIZE_MAX
    requires Holds(profile, claims.profile) && Holds(implementationId, claims.implementationId)
    requires Holds(instanceId, claims.instanceId) && Holds(nonce, claims.nonce)
    requires claims.clientId == clientId && claims.lifecycle == lifecycle
    requires HoldComponents(components, claims.components)
    requires Apart(profile, buffer) && Apart(implementationId, buffer) && Apart(instanceId, buffer)
             && Apart(nonce, buffer)
    requires forall i :: 0 <= i < |components| ==> ComponentApart(components[i], buffer)
    modifies buffer
    ensures if LastOpen(claims) < MAX_OFFSET then Delivered(evidence, buffer, EvidenceBytes(claims))
            else evidence == NULL_USEFUL_BUF
    ensures LastOpen(claims) < MAX_OFFSET && |claims.components| <= MOST ==>
              Delivered(evidence, buffer, SerialAll(Token(claims)))
  {
    hide EncodeContext.Repr, Ran, TokenCalls, Outcome, Apart, Usable, ComponentApart, Remain, HoldsComponent;
    var c := NewContext(buffer);
    assert forall i, o :: 0 <= i < |components| && o in Pointers(components[i]) ==> unchanged(o);
    assert forall i :: 0 <= i < |components| ==> HoldsComponent(components[i], claims.components[i]);
    BufferUsable(c, profile, claims.profile, buffer);
    BufferUsable(c, implementationId, claims.implementationId, buffer);
    BufferUsable(c, instanceId, claims.instanceId, buffer);
    BufferUsable(c, nonce, claims.nonce, buffer);
    ComponentsUsable(c, components, claims.components, buffer);
    ghost var calls := AddClaims(c, profile, clientId, lifecycle, implementationId, components, instanceId, nonce,
                                 claims);
    evidence := FinishOrNull(c, buffer, calls);
    EvidenceDelivered(evidence, buffer, claims);
  }

  ghost function CallsUpTo(claims: Claims, i: nat): seq<Op>
    requires i <= |claims.components|
  {
    [OpOpen(DefMap)] + OpsBeforeComponents(claims) + [OpOpen(DefArray)] + ComponentCalls(claims.components[..i])
  }

  lemma CallsBefore(claims: Claims, calls: seq<Op>)
    requires calls == [] + [OpOpen(DefMap)]
                      + Entry(PROFILE_DEFINITION, Text(claims.profile))
                      + [OpInt(CLIENT_ID), OpInt(claims.clientId)]
                      + [OpInt(SECURITY_LIFECYCLE), OpInt(claims.lifecycle)]
                      + Entry(IMPLEMENTATION_ID, Bstr(claims.implementationId))
                      + [OpInt(SW_COMPONENTS), OpOpen(DefArray)]
    ensures calls == CallsUpTo(claims, 0)
  {
    hide Text, Bstr;
    assert ComponentCalls(claims.components[..0]) == [];
  }

  lemma OneMoreComponent(claims: Claims, i: nat)
    requires i < |claims.components|
    ensures CallsUpTo(claims, i) + ([OpOpen(DefMap)] + ComponentOps(claims.components[i]) + [OpClose(DefMap)])
            == CallsUpTo(claims, i + 1)
  {
    hide ComponentOps, OpsBeforeComponents;
    assert claims.components[..i + 1][..i] == claims.components[..i];
  }

  lemma CallsAfter(claims: Claims, calls: seq<Op>)
    requires calls == CallsUpTo(claims, |claims.components|) + [OpClose(DefArray)] + Entry(NONCE, Bstr(claims.nonce))
                      + Entry(INSTANCE_ID, Bstr(claims.instanceId)) + [OpClose(DefMap)]
    ensures calls == TokenCalls(claims)
  {
    hide Bstr, Entry, OpsBeforeComponents, ComponentCalls;
    assert claims.components[..|claims.components|] == claims.components;
  }

  /** encode_protected_parameter: the map {1: -7}. */
  method EncodeProtectedParameter(buffer: array<byte>) returns (protected: UsefulBufC)
    requires buffer.Length <= SIZE_MAX
    modifies buffer
    ensures Delivered(protected, buffer, PROTECTED)
  {
    hide EncodeContext.Repr, Ran, Delivered, Outcome, ProtectedTree, Ops, SerialAll, FitAll;
    var c := NewContext(buffer);
    ghost var calls := Open(c, DefMap, []);
    calls := AddInt64ToMapN(c, HEADER_PARAM_ALG, ALGORITHM_ES256, calls);
    calls := Close(c, DefMap, calls);
    protected := FinishOrNull(c, buffer, calls);
    assert calls == ProtectedCalls();
    ProtectedCallsAre();
    ProtectedIsMap();
    ProtectedFits();
    ForestDelivered(protected, buffer, ProtectedTree());
  }

  /** AddBytes of what a buffer holds. */
  method AddByteString(c: EncodeContext, b: UsefulBufC, ghost value: bytes, ghost calls: seq<Op>)
    returns (ghost more: seq<Op>)
    requires Ran(c, calls) && Usable(c, b, value)
    modifies c.Repr()
    ensures Ran(c, more) && more == calls + [Bstr(value)] && Usable(c, b, value)
  {
    more := QcborWrappers.AddBytes(c, b, calls);
  }

  method AddContext(c: EncodeContext, ghost calls: seq<Op>) returns (ghost more: seq<Op>)
    requires Ran(c, calls)
    modifies c.Repr()
    ensures Ran(c, more) && more == calls + [Text(SIGNATURE1)]
  {
    var text := new byte[|SIGNATURE1|](i requires 0 <= i < |SIGNATURE1| => SIGNATURE1[i]);
    var b := UsefulBufC(text, 0, text.Length);
    assert b.Value() == SIGNATURE1;
    more := QcborWrappers.AddText(c, b, calls);
  }

  /** create_tbs: the Sig_structure of RFC 8152 section 4.4. */
  method CreateTbs(protected: UsefulBufC, aad: UsefulBufC, payload: UsefulBufC, buffer: array<byte>,
                   ghost p: bytes, ghost a: bytes, ghost m: bytes)
    returns (tbs: UsefulBufC)
    requires buffer.Length <= SIZE_MAX
    requires Holds(protected, p) && Holds(aad, a) && Holds(payload, m)
    requires Apart(protected, buffer) && Apart(aad, buffer) && Apart(payload, buffer)
    modifies buffer
    ensures Delivered(tbs, buffer, SigStructure(p, a, m))
  {
    hide EncodeContext.Repr, Ran, Delivered, Outcome, Ops, SerialAll, FitAll, TbsTree, SigStructure, Apart, Usable,
      UsefulBufC.InBounds;
    var c := NewContext(buffer);
    BufferUsable(c, protected, p, buffer);
    BufferUsable(c, aad, a, buffer);
    BufferUsable(c, payload, m, buffer);
    ghost var calls := AddSigItems(c, protected, aad, payload, p, a, m);
    tbs := FinishOrNull(c, buffer, calls);
    TbsCallsAre(p, a, m);
    TbsIsSigStructure(p, a, m);
    TbsFits(p, a, m);
    ForestDelivered(tbs, buffer, TbsTree(p, a, m));
  }

  method AddSigItems(c: EncodeContext, protected: UsefulBufC, aad: UsefulBufC, payload: UsefulBufC, ghost p: bytes,
                     ghost a: bytes, ghost m: bytes)
    returns (ghost calls: seq<Op>)
    requires Ran(c, []) && Usable(c, protected, p) && Usable(c, aad, a) && Usable(c, payload, m)
    modifies c.Repr()
    ensures Ran(c, calls) && calls == TbsCalls(p, a, m)
  {
    hide EncodeContext.Repr, EncodeContext.Source, Ran, Text, Bstr, Holds, UsefulBufC.InBounds;
    calls := Open(c, DefArray, []);
    calls := AddContext(c, calls);
    calls := AddByteString(c, protected, p, calls);
    calls := AddByteString(c, aad, a, calls);
    calls := AddByteString(c, payload, m, calls);
    calls := Close(c, DefArray, calls);
  }

  /** What sign_ecdsa_sha256 makes of the bytes it is given. */
  datatype Signing = Signed(signature: bytes) | SigningFailed

  /** The message for a payload and its signature. */
  function CoseBytes(payload: bytes, signature: bytes): bytes {
    SerialAll(CoseTree(PROTECTED, payload, signature))
  }

  /** What generate_cose has written when it is time to sign. */
  ghost function CallsBeforeSigning(payload: bytes): seq<Op> {
    [OpTag(TAG_COSE_SIGN1)] + [OpOpen(DefArray)] + [Bstr(PROTECTED)] + [OpOpen(DefMap)] + [OpClose(DefMap)]
      + [Bstr(payload)]
  }

  lemma CallsAroundSigning(payload: bytes, signature: bytes)
    ensures CallsBeforeSigning(payload) + [Bstr(signature)] + [OpClose(DefArray)]
            == CoseCalls(PROTECTED, payload, signature)
  {
    hide Bstr;
  }

  method BeforeSigning(c: EncodeContext, protected: UsefulBufC, evidence: UsefulBufC, ghost payload: bytes)
    returns (ghost calls: seq<Op>)
    requires Ran(c, [OpTag(TAG_COSE_SIGN1)] + [OpOpen(DefArray)]) && Usable(c, protected, PROTECTED)
             && Usable(c, evidence, payload)
    modifies c.Repr()
    ensures Ran(c, calls) && calls == CallsBeforeSigning(payload)
    ensures Usable(c, protected, PROTECTED) && Usable(c, evidence, payload)
  {
    hide EncodeContext.Repr, EncodeContext.Source, Ran, Text, Bstr, Holds, UsefulBufC.InBounds;
    calls := AddByteString(c, protected, PROTECTED, [OpTag(TAG_COSE_SIGN1)] + [OpOpen(DefArray)]);
    calls := Open(c, DefMap, calls);
    calls := Close(c, DefMap, calls);
    calls := AddByteString(c, evidence, payload, calls);
  }

  method AfterSigning(c: EncodeContext, signature: bytes, ghost payload: bytes) returns (ghost calls: seq<Op>)
    requires Ran(c, CallsBeforeSigning(payload)) && |signature| <= SIGNATURE_SIZE
    modifies c.Repr()
    ensures Ran(c, calls) && calls == CoseCalls(PROTECTED, payload, signature)
  {
    var local := new byte[|signature|](i requires 0 <= i < |signature| => signature[i]);
    var b := UsefulBufC(local, 0, local.Length);
    assert b.Value() == signature;
    assert Usable(c, b, signature);
    hide EncodeContext.Repr, EncodeContext.Source, Ran, Holds, Usable, Bstr, CoseCalls, CallsBeforeSigning;
    calls := AddByteString(c, b, signature, CallsBeforeSigning(payload));
    calls := Close(c, DefArray, calls);
    CallsAroundSigning(payload, signature);
  }

  /**
    The message carries the signature of its own Sig_structure, or there is none:
    when that structure does not fit 512 bytes or signing fails or the message
    does not fit.
   */
  ghost predicate SignedMessage(cose: UsefulBufC, buffer: array<byte>, sign: bytes -> Signing, payload: bytes)
    reads buffer
  {
    var tbs := SigStructure(PROTECTED, [], payload);
    if |tbs| <= 512 && sign(tbs).Signed? then Delivered(cose, buffer, CoseBytes(payload, sign(tbs).signature))
    else cose == NULL_USEFUL_BUF
  }

  /** generate_cose from the encoding of the protected header on. */
  method CompleteCose(c: EncodeContext, evidence: UsefulBufC, heapProt: array<byte>, heapTbs: array<byte>,
                      buffer: array<byte>, sign: bytes -> Signing, ghost payload: bytes)
    returns (cose: UsefulBufC)
    requires Ran(c, [OpTag(TAG_COSE_SIGN1)] + [OpOpen(DefArray)]) && c.outBuf.storage == buffer
             && c.outBuf.capacity == buffer.Length <= SIZE_MAX
    requires heapProt.Length == 256 && heapTbs.Length == 512 && heapProt != heapTbs
    requires heapProt !in c.Repr() && heapTbs !in c.Repr() && evidence.ptr != heapProt && evidence.ptr != heapTbs
    requires Usable(c, evidence, payload)
    requires forall m :: sign(m).Signed? ==> |sign(m).signature| <= SIGNATURE_SIZE
    modifies c.Repr(), heapProt, heapTbs
    ensures SignedMessage(cose, buffer, sign, payload)
  {
    hide Ran, CoseBytes, SigStructure, CoseCalls, CallsBeforeSigning, Bstr, Outcome, ByteStringBytes;
    var protected := EncodeProtectedParameter(heapProt);
    if protected.ptr == null {
      return NULL_USEFUL_BUF;
    }
    assert Usable(c, protected, PROTECTED);
    ghost var calls := BeforeSigning(c, protected, evidence, payload);
    var toSign := CreateTbs(protected, NULL_USEFUL_BUF, evidence, heapTbs, PROTECTED, [], payload);
    if toSign.ptr == null {
      return NULL_USEFUL_BUF;
    }
    var signing := sign(toSign.ptr[toSign.off..toSign.off + toSign.len]);
    if signing.SigningFailed? {
      return NULL_USEFUL_BUF;
    }
    calls := AfterSigning(c, signing.signature, payload);
    cose := FinishOrNull(c, buffer, calls);
    CoseDelivered(cose, buffer, payload, signing.signature);
  }

  /**
    generate_cose: the COSE_Sign1 of the evidence.  Its signature is over the
    bytes that a verifier rebuilds from the message; when those do not fit 512
    bytes, signing fails or the message does not fit, the null buffer is returned.
   */
  method GenerateCose(evidence: UsefulBufC, buffer: array<byte>, sign: bytes -> Signing, ghost payload: bytes)
    returns (cose: UsefulBufC)
    requires buffer.Length <= SIZE_MAX && Holds(evidence, payload) && Apart(evidence, buffer)
    requires forall m :: sign(m).Signed? ==> |sign(m).signature| <= SIGNATURE_SIZE
    modifies buffer
    ensures SignedMessage(cose, buffer, sign, payload)
  {
    hide SignedMessage, Ran, UsefulBufC.InBounds, Holds;
    var c := NewContext(buffer);
    BufferUsable(c, evidence, payload, buffer);
    ghost var calls := QcborWrappers.AddTag(c, TAG_COSE_SIGN1, []);
    calls := Open(c, DefArray, calls);
    assert calls == [OpTag(TAG_COSE_SIGN1)] + [OpOpen(DefArray)];
    var heapProt, heapTbs := new byte[256], new byte[512];
    cose := CompleteCose(c, evidence, heapProt, heapTbs, buffer, sign, payload);
  }

  lemma CoseDelivered(r: UsefulBufC, buffer: array<byte>, payload: bytes, signature: bytes)
    requires Outcome(r, buffer, CoseCalls(PROTECTED, payload, signature))
    ensures Delivered(r, buffer, CoseBytes(payload, signature))
  {
    hide Ops, SerialAll, FitAll, CoseTree, CoseCalls, Outcome, Delivered;
    CoseCallsAre(PROTECTED, payload, signature);
    CoseFits(PROTECTED, payload, signature);
    ForestDelivered(r, buffer, CoseTree(PROTECTED, payload, signature));
  }

  /** Every message handed out: a verifier rebuilds bytes whose signature is the one it finds in the message. */
  lemma SignatureCoversRebuilt(cose: UsefulBufC, buffer: array<byte>, sign: bytes -> Signing, payload: bytes)
    requires SignedMessage(cose, buffer, sign, payload) && cose.ptr != null && cose.InBounds()
    requires |payload| <= SIZE_MAX && forall m :: sign(m).Signed? ==> |sign(m).signature| <= SIGNATURE_SIZE
    ensures var v := Rebuild(cose.Value());
            v.Verified? && v.signed == SigStructure(PROTECTED, [], payload) && sign(v.signed) == Signed(v.signature)
  {
    hide SigStructure, Rebuild, SerialAll, TbsTree, CoseTree;
    var signature := sign(SigStructure(PROTECTED, [], payload)).signature;
    assert cose.Value() == CoseBytes(payload, signature);
    VerifierRebuildsSigned(PROTECTED, payload, signature);
    TbsIsSigStructure(PROTECTED, [], payload);
  }

  // ----- the command of the pseudo TA -----

  const WORK_BUFFER_SIZE: nat := 512

  ghost predicate Readable(b: UsefulBufC) {
    b.ptr != null || b.len == 0
  }

  ghost predicate ReadableComponent(c: SwComponent) {
    && Readable(c.measurementType) && Readable(c.measurementValue) && Readable(c.signerId)
    && (c.version.Present? ==> Readable(c.version.b))
  }

  /** The first half of cmd_get_cbor_evidence: the claims into a buffer of its own. */
  method EncodeClaims(profile: UsefulBufC, clientId: int32, lifecycle: int32, implementationId: UsefulBufC,
                      components: seq<SwComponent>, instanceId: UsefulBufC, nonce: UsefulBufC, ghost claims: Claims)
    returns (evidence: UsefulBufC)
    requires Holds(profile, claims.profile) && Holds(implementationId, claims.implementationId)
    requires Holds(instanceId, claims.instanceId) && Holds(nonce, claims.nonce)
    requires claims.clientId == clientId && claims.lifecycle == lifecycle
    requires HoldComponents(components, claims.components)
    requires Readable(profile) && Readable(implementationId) && Readable(instanceId) && Readable(nonce)
    requires forall i :: 0 <= i < |components| ==> ReadableComponent(components[i])
    requires LastOpen(claims) < MAX_OFFSET && |claims.components| <= MOST
    ensures var token := SerialAll(Token(claims));
            if |token| <= WORK_BUFFER_SIZE then evidence.ptr != null && fresh(evidence.ptr) && Holds(evidence, token)
            else evidence.ptr == null
  {
    hide LastOpen, EvidenceBytes, Delivered, SerialAll, Token, HoldsComponent;
    var heapCbor := new byte[WORK_BUFFER_SIZE];
    assert forall i, o :: 0 <= i < |components| && o in Pointers(components[i]) ==> unchanged(o);
    assert forall i :: 0 <= i < |components| ==> HoldsComponent(components[i], claims.components[i]);
    evidence :=
      EncodeEvidence(profile, clientId, lifecycle, implementationId, components, instanceId, nonce, heapCbor, claims);
    EvidenceIsThere(evidence, heapCbor, SerialAll(Token(claims)));
  }

  /** The second half: signed into a buffer of its own. */
  method SignEvidence(evidence: UsefulBufC, sign: bytes -> Signing, ghost token: bytes) returns (cose: UsefulBufC)
    requires Holds(evidence, token) && Readable(evidence) && |token| <= WORK_BUFFER_SIZE
    requires forall m :: sign(m).Signed? ==> |sign(m).signature| == SIGNATURE_SIZE
    ensures cose.ptr != null <==> |token| <= 436 && sign(SigStructure(PROTECTED, [], token)).Signed?
    ensures cose.ptr != null ==>
              && cose.InBounds() && Rebuild(cose.Value()).Verified?
              && var v := Rebuild(cose.Value());
                 v.signed == SigStructure(PROTECTED, [], token) && sign(v.signed) == Signed(v.signature)
  {
    hide SignedMessage, SigStructure, Rebuild;
    var heapCose := new byte[WORK_BUFFER_SIZE];
    cose := GenerateCose(evidence, heapCose, sign, token);
    MessageIsThere(cose, heapCose, sign, token);
  }

  /**
    cmd_get_cbor_evidence from the claims on, up to where the message is handed to
    the caller: a message exactly when there is not too much evidence, and then a
    verifier rebuilds from it signed bytes that carry the token of the claims.
   */
  method CborEvidence(profile: UsefulBufC, clientId: int32, lifecycle: int32, implementationId: UsefulBufC,
                      components: seq<SwComponent>, instanceId: UsefulBufC, nonce: UsefulBufC,
                      sign: bytes -> Signing, ghost claims: Claims)
    returns (cose: UsefulBufC)
    requires Holds(profile, claims.profile) && Holds(implementationId, claims.implementationId)
    requires Holds(instanceId, claims.instanceId) && Holds(nonce, claims.nonce)
    requires claims.clientId == clientId && claims.lifecycle == lifecycle
    requires HoldComponents(components, claims.components)
    requires Readable(profile) && Readable(implementationId) && Readable(instanceId) && Readable(nonce)
    requires forall i :: 0 <= i < |components| ==> ReadableComponent(components[i])
    requires AsAttested(claims) && forall m :: sign(m).Signed? ==> |sign(m).signature| == SIGNATURE_SIZE
    ensures cose.ptr != null <==>
              VaryingLength(claims) <= 162 && sign(SigStructure(PROTECTED, [], SerialAll(Token(claims)))).Signed?
    ensures cose.ptr != null ==>
              && cose.InBounds() && Rebuild(cose.Value()).Verified?
              && var v := Rebuild(cose.Value());
                 v.signed == SigStructure(PROTECTED, [], SerialAll(Token(claims)))
                   && sign(v.signed) == Signed(v.signature)
  {
    AttestedStartsEarly(claims);
    AttestedTokenLength(claims);
    hide LastOpen, SerialAll, Token, SigStructure, Rebuild, AsAttested, VaryingLength, HoldComponents,
      ReadableComponent;
    var evidence := EncodeClaims(profile, clientId, lifecycle, implementationId, components, instanceId, nonce, claims);
    if evidence.ptr == null {
      return NULL_USEFUL_BUF;
    }
    cose := SignEvidence(evidence, sign, SerialAll(Token(claims)));
  }

  lemma EvidenceIsThere(r: UsefulBufC, buffer: array<byte>, token: bytes)
    requires Delivered(r, buffer, token) && buffer.Length == WORK_BUFFER_SIZE
    ensures if |token| <= WORK_BUFFER_SIZE then r.ptr == buffer && Holds(r, token) else r.ptr == null
  {
  }

  lemma MessageIsThere(cose: UsefulBufC, buffer: array<byte>, sign: bytes -> Signing, payload: bytes)
    requires SignedMessage(cose, buffer, sign, payload) && buffer.Length == WORK_BUFFER_SIZE
    requires |payload| <= WORK_BUFFER_SIZE && forall m :: sign(m).Signed? ==> |sign(m).signature| == SIGNATURE_SIZE
    ensures cose.ptr != null <==> |payload| <= 436 && sign(SigStructure(PROTECTED, [], payload)).Signed?
    ensures cose.ptr != null ==>
              && cose.InBounds() && Rebuild(cose.Value()).Verified?
              && var v := Rebuild(cose.Value());
                 v.signed == SigStructure(PROTECTED, [], payload) && sign(v.signed) == Signed(v.signature)
  {
    hide SigStructure, Rebuild, SerialAll, TbsTree, CoseTree;
    var signing := sign(SigStructure(PROTECTED, [], payload));
    TbsIsSigStructure(PROTECTED, [], payload);
    if signing.Signed? {
      MessageFitsIff(payload, signing.signature);
    }
    if cose.ptr != null {
      SignatureCoversRebuilt(cose, buffer, sign, payload);
    }
  }
}
