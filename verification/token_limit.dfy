/**
  The token for any number of software components: an array counts at most 65533
  items, and the error of the next one is forgotten when its map is opened.
 */
module TokenLimit {
  import opened BigEndian
  import opened CborHead
  import opened EncoderSpec
  import opened CborForest
  import opened EncoderStuck
  import opened PlainForest
  import opened PsaClaims
  import opened PsaLengths
  import SizeCalculation

  const MOST: nat := MAX_ITEMS - 1

  function Counted(n: nat): nat {
    if n < MOST then n else MOST
  }

  function ArrayBytes(c: Claims, n: nat): bytes {
    Head(ARRAY, 0, n) + SerialAll(ComponentElems(c.components))
  }

  function InsideBytes(c: Claims, n: nat): bytes {
    LeavesBytes(OpsBeforeComponents(c)) + ArrayBytes(c, n) + LeavesBytes(OpsAfterComponents(c))
  }

  /** The token with an array head that claims n components. */
  function TokenBytes(c: Claims, n: nat): bytes {
    Head(MAP, 0, 7) + InsideBytes(c, n)
  }

  /** What encode_evidence_to_cbor makes of the claims. */
  function EvidenceBytes(c: Claims): bytes {
    TokenBytes(c, Counted(|c.components|))
  }

  lemma DefiniteSerial(kind: Kind, items: seq<Elem>)
    requires kind == DefArray || kind == DefMap
    ensures Serial(Group(kind, items)) == Closed(kind, SerialAll(items), Count(items))
  {
    hide SerialAll, Count, Closed;
    assert OpeningBytes(kind) == [];
  }

  lemma ArraySerial(c: Claims)
    ensures var g := [Group(DefArray, ComponentElems(c.components))];
            SerialAll(g) == ArrayBytes(c, |c.components|) && Count(g) == 1
  {
    hide SerialAll, Count, Serial, ComponentElems;
    ComponentsAreLong(c.components);
    Single(Group(DefArray, ComponentElems(c.components)));
    DefiniteSerial(DefArray, ComponentElems(c.components));
  }

  lemma LeavesAround(c: Claims)
    ensures SerialAll(Leaves(OpsBeforeComponents(c))) == LeavesBytes(OpsBeforeComponents(c))
            && Count(Leaves(OpsBeforeComponents(c))) == 9
    ensures SerialAll(Leaves(OpsAfterComponents(c))) == LeavesBytes(OpsAfterComponents(c))
            && Count(Leaves(OpsAfterComponents(c))) == 4
  {
    hide Leaves, LeavesBytes, SerialAll, Count;
    LeavesPlain(OpsBeforeComponents(c), 0);
    LeavesPlain(OpsAfterComponents(c), 0);
    PlainCount(Leaves(OpsBeforeComponents(c)), 0);
    PlainCount(Leaves(OpsAfterComponents(c)), 0);
    LeavesAll(OpsBeforeComponents(c));
    LeavesAll(OpsAfterComponents(c));
  }

  lemma ItemsAre(c: Claims)
    ensures SerialAll(TokenItems(c)) == InsideBytes(c, |c.components|) && Count(TokenItems(c)) == 14
  {
    var a, g, b := Leaves(OpsBeforeComponents(c)), [Group(DefArray, ComponentElems(c.components))],
      Leaves(OpsAfterComponents(c));
    hide Leaves, LeavesBytes, SerialAll, Count, OpsBeforeComponents, OpsAfterComponents, ComponentElems, ArrayBytes;
    LeavesAround(c);
    ArraySerial(c);
    Concat(a, g);
    Concat(a + g, b);
  }

  lemma TokenBytesAre(c: Claims)
    ensures SerialAll(Token(c)) == TokenBytes(c, |c.components|)
  {
    hide SerialAll, Count, TokenItems, InsideBytes, Serial;
    ItemsAre(c);
    Single(Group(DefMap, TokenItems(c)));
    DefiniteSerial(DefMap, TokenItems(c));
  }

  /** Leaves, at any place in a level. */
  lemma {:induction false} LeavesRun(s: State, ops: seq<Op>)
    requires forall i :: 0 <= i < |ops| ==> ops[i].OpInt? || ops[i].OpBuffer?
    requires Healthy(s) && s.top.count + |ops| < MAX_ITEMS && |s.data| + |LeavesBytes(ops)| <= s.capacity
    ensures Run(s, ops) == Advanced(s, LeavesBytes(ops), |ops|)
  {
    if ops == [] {
      AdvancedByNothing(s);
    } else {
      var front, last := ops[..|ops| - 1], ops[|ops| - 1];
      var t := Advanced(s, LeavesBytes(front), |front|);
      LeafFits(s, front, last);
      assert LeavesBytes(ops) == LeavesBytes(front) + LeafBytes(last) && Weight(Leaf(last)) == 1;
      hide *;
      LeavesRun(s, front);
      LeafRun(t, last);
      RunConcat(s, front, [last]);
      RunOne(t, last);
      AdvancedTwice(s, LeavesBytes(front), |front|, LeafBytes(last), 1);
      assert ops == front + [last];
    }
  }

  lemma LeafFits(s: State, front: seq<Op>, last: Op)
    requires last.OpInt? || last.OpBuffer?
    requires Healthy(s) && s.top.count + |front| < MAX_ITEMS - 1
             && |s.data| + |LeavesBytes(front) + LeafBytes(last)| <= s.capacity
    ensures var t := Advanced(s, LeavesBytes(front), |front|);
            && Healthy(t) && FitsHere(Leaf(last), t) && |t.data| + |LeafBytes(last)| <= t.capacity
            && s.top.count + |front| < MAX_ITEMS && |s.data| + |LeavesBytes(front)| <= s.capacity
  {
    hide LeavesBytes, LeafBytes;
  }

  /** Opening a map where one more item would overflow the count is no different from opening it before. */
  lemma OverflowForgotten(s: State, s': State)
    requires Healthy(s) && s.top.count == MOST && s' == s.(top := s.top.(count := MOST - 1))
    requires |s.below| < MAX_NESTING && |s.data| < MAX_OFFSET
    ensures Step(s, OpOpen(DefMap)) == Step(s', OpOpen(DefMap))
  {
  }

  lemma ComponentRun(s: State, c: Component)
    requires Healthy(s) && s.top.count <= MOST && |s.below| < MAX_NESTING
    requires |s.data| < MAX_OFFSET && |s.data| + |Serial(ComponentElem(c))| <= s.capacity
    ensures Run(s, ElemOps(ComponentElem(c)))
            == Advanced(s, Serial(ComponentElem(c)), if s.top.count < MOST then 1 else 0)
  {
    var e, s' := ComponentElem(c), if s.top.count < MOST then s else s.(top := s.top.(count := MOST - 1));
    hide Serial, Step, Run, Fits;
    ComponentFits(c, |s.data|, |s.below|, s'.top.count, s'.top.major == OPEN_BSTR);
    ElemRun(s', e);
    if s' != s {
      OverflowForgotten(s, s');
      SameFirstStep(s, s', ElemOps(e));
    }
  }

  lemma ComponentFits(c: Component, pos: nat, depth: nat, count: nat, inBytes: bool)
    requires pos < MAX_OFFSET && depth < MAX_NESTING && count < MOST
    ensures Fits(ComponentElem(c), pos, depth, count, inBytes)
  {
    hide Leaves, FitAll;
    LeavesFit(ComponentOps(c), pos, depth + 1);
  }

  lemma SameFirstStep(s: State, s': State, ops: seq<Op>)
    requires ops != [] && Step(s, ops[0]) == Step(s', ops[0])
    ensures Run(s, ops) == Run(s', ops)
  {
    hide Step;
  }

  /** How far into the components the last of them starts. */
  function LastComponent(cs: seq<Component>): nat {
    if cs == [] then 0 else |SerialAll(ComponentElems(cs[..|cs| - 1]))|
  }

  lemma ComponentsGrow(cs: seq<Component>)
    ensures LastComponent(cs) <= |SerialAll(ComponentElems(cs))|
  {
    if cs != [] {
      SplitComponents(cs);
      hide SerialAll, ComponentElems;
    }
  }

  lemma {:induction false} ComponentsRun(s: State, cs: seq<Component>)
    requires Healthy(s) && s.top.count == 0 && |s.below| < MAX_NESTING
    requires |s.data| + LastComponent(cs) < MAX_OFFSET && |s.data| + |SerialAll(ComponentElems(cs))| <= s.capacity
    ensures Run(s, ComponentCalls(cs)) == Advanced(s, SerialAll(ComponentElems(cs)), Counted(|cs|))
  {
    if cs == [] {
      AdvancedByNothing(s);
    } else {
      SplitComponents(cs);
      hide *;
      var front, last := cs[..|cs| - 1], cs[|cs| - 1];
      LastStarts(s, cs);
      ComponentsRun(s, front);
      LastComponentRun(s, SerialAll(ComponentElems(front)), |front|, last);
      RunConcat(s, ComponentCalls(front), ElemOps(ComponentElem(last)));
    }
  }

  /** The components before the last, and where that starts. */
  lemma LastStarts(s: State, cs: seq<Component>)
    requires cs != [] && |s.data| + LastComponent(cs) < MAX_OFFSET
    requires |s.data| + |SerialAll(ComponentElems(cs))| <= s.capacity
    ensures var front, last := cs[..|cs| - 1], cs[|cs| - 1];
            var start := |s.data| + |SerialAll(ComponentElems(front))|;
            && |s.data| + LastComponent(front) < MAX_OFFSET && start < MAX_OFFSET
            && start <= s.capacity && start + |Serial(ComponentElem(last))| <= s.capacity
  {
    var front := cs[..|cs| - 1];
    assert LastComponent(cs) == |SerialAll(ComponentElems(front))|;
    SplitComponents(cs);
    ComponentsGrow(front);
    hide *;
  }

  lemma LastComponentRun(s: State, body: bytes, n: nat, last: Component)
    requires Healthy(s) && s.top.count == 0 && |s.below| < MAX_NESTING && |s.data| + |body| < MAX_OFFSET
    requires |s.data| + |body| + |Serial(ComponentElem(last))| <= s.capacity
    ensures Run(Advanced(s, body, Counted(n)), ElemOps(ComponentElem(last)))
         == Advanced(s, body + Serial(ComponentElem(last)), Counted(n + 1))
  {
    hide Run, Serial, ElemOps, ComponentElem;
    var t := Advanced(s, body, Counted(n));
    ComponentRun(t, last);
    AdvancedTwice(s, body, Counted(n), Serial(ComponentElem(last)), if t.top.count < MOST then 1 else 0);
  }

  /** A map that starts too far into the buffer: no later call undoes that error. */
  lemma {:induction false} ComponentsStuck(s: State, cs: seq<Component>)
    requires Healthy(s) && s.top.count == 0 && |s.below| < MAX_NESTING && cs != []
    requires |s.data| + LastComponent(cs) >= MAX_OFFSET && |s.data| + |SerialAll(ComponentElems(cs))| <= s.capacity
    ensures Stuck(Run(s, ComponentCalls(cs)))
  {
    var front, last := cs[..|cs| - 1], cs[|cs| - 1];
    var calls := ElemOps(ComponentElem(last));
    SplitComponents(cs);
    assert LastComponent(cs) == |SerialAll(ComponentElems(front))|;
    hide *;
    RunConcat(s, ComponentCalls(front), calls);
    if front == [] {
      NothingBefore();
      NothingRun(s);
      AdvancedByNothing(s);
      LateOpen(s, [], 0, last);
    } else if |s.data| + LastComponent(front) >= MAX_OFFSET {
      ComponentsFitBefore(cs);
      ComponentsStuck(s, front);
      RunStuck(Run(s, ComponentCalls(front)), calls);
    } else {
      ComponentsFitBefore(cs);
      ComponentsRun(s, front);
      LateOpen(s, SerialAll(ComponentElems(front)), Counted(|front|), last);
    }
  }

  lemma ComponentsFitBefore(cs: seq<Component>)
    requires cs != []
    ensures |SerialAll(ComponentElems(cs[..|cs| - 1]))| <= |SerialAll(ComponentElems(cs))|
  {
    SplitComponents(cs);
    hide *;
  }

  lemma NothingRun(s: State)
    ensures Run(s, []) == s
  {
  }

  lemma NothingBefore()
    ensures LastComponent([]) == 0 && SerialAll(ComponentElems([])) == [] && ComponentCalls([]) == []
  {
  }

  lemma LateOpen(s: State, body: bytes, count: nat, c: Component)
    requires Healthy(s) && |s.data| + |body| >= MAX_OFFSET
    ensures Stuck(Run(Advanced(s, body, count), ElemOps(ComponentElem(c))))
  {
    var t := Advanced(s, body, count);
    var rest := ComponentOps(c) + [OpClose(DefMap)];
    ComponentOpsAre(c);
    LateIsStuck(t, DefMap);
    hide Run, Step, ComponentOps, ComponentElem, ElemOps, Stuck;
    StuckFrom(t, OpOpen(DefMap), rest);
    assert [OpOpen(DefMap)] + rest == [OpOpen(DefMap)] + ComponentOps(c) + [OpClose(DefMap)];
  }

  lemma LateIsStuck(t: State, kind: Kind)
    requires |t.data| >= MAX_OFFSET && !kind.Indefinite()
    ensures Stuck(Step(t, OpOpen(kind)))
  {
  }

  lemma SplitComponents(cs: seq<Component>)
    requires cs != []
    ensures var front, last := cs[..|cs| - 1], cs[|cs| - 1];
            && ComponentCalls(cs) == ComponentCalls(front) + ElemOps(ComponentElem(last))
            && SerialAll(ComponentElems(cs)) == SerialAll(ComponentElems(front)) + Serial(ComponentElem(last))
  {
    var front, last := cs[..|cs| - 1], cs[|cs| - 1];
    hide *;
    ComponentCallsAre(cs);
    ComponentCallsAre(front);
    ElemsSplit(cs);
    Single(ComponentElem(last));
    Concat(ComponentElems(front), [ComponentElem(last)]);
  }

  /** A definite-length array or map around calls whose effect is known. */
  lemma DefiniteRun(s: State, kind: Kind, inner: seq<Op>, body: bytes, count: nat)
    requires Healthy(s) && s.top.count < MOST && |s.below| < MAX_NESTING && |s.data| < MAX_OFFSET
    requires kind == DefArray || kind == DefMap
    requires |s.data| + |Closed(kind, body, count)| <= s.capacity
    requires var nested := Nested(Advanced(s, [], 1), kind.Major()); Run(nested, inner) == Advanced(nested, body, count)
    ensures Run(s, [OpOpen(kind)] + inner + [OpClose(kind)]) == Advanced(s, Closed(kind, body, count), 1)
  {
    var outer := Advanced(s, [], 1);
    assert Healthy(outer) && outer.data == s.data && outer.capacity == s.capacity && OpeningBytes(kind) == [];
    hide Step, Run, Advanced, Nested, Closed;
    OpenRun(s, kind);
    CloseRun(outer, kind, body, count);
    RunConcat(s, [OpOpen(kind)] + inner, [OpClose(kind)]);
    RunConcat(s, [OpOpen(kind)], inner);
    RunOne(s, OpOpen(kind));
    RunOne(Advanced(Nested(outer, kind.Major()), body, count), OpClose(kind));
    AdvancedTwice(s, [], 1, Closed(kind, body, count), 0);
    assert [] + Closed(kind, body, count) == Closed(kind, body, count);
  }

  function ArrayCalls(c: Claims): seq<Op> {
    [OpOpen(DefArray)] + ComponentCalls(c.components) + [OpClose(DefArray)]
  }

  lemma ArrayRun(s: State, c: Claims)
    requires Healthy(s) && s.top.count < MOST && |s.below| + 1 < MAX_NESTING
    requires |s.data| + LastComponent(c.components) < MAX_OFFSET
    requires |s.data| + |ArrayBytes(c, Counted(|c.components|))| <= s.capacity
    ensures Run(s, ArrayCalls(c)) == Advanced(s, ArrayBytes(c, Counted(|c.components|)), 1)
  {
    var body, n := SerialAll(ComponentElems(c.components)), Counted(|c.components|);
    assert ArrayBytes(c, n) == Closed(DefArray, body, n);
    hide Run, SerialAll, ComponentElems, ComponentCalls, LastComponent;
    ComponentsRun(Nested(Advanced(s, [], 1), ARRAY), c.components);
    DefiniteRun(s, DefArray, ComponentCalls(c.components), body, n);
  }

  lemma AroundAreLeaves(c: Claims)
    ensures var before, after := OpsBeforeComponents(c), OpsAfterComponents(c);
            && |before| == 9 < MAX_ITEMS && (forall i :: 0 <= i < |before| ==> before[i].OpInt? || before[i].OpBuffer?)
            && |after| == 4 && (forall i :: 0 <= i < |after| ==> after[i].OpInt? || after[i].OpBuffer?)
  {
  }

  lemma ArrayBytesAreLonger(c: Claims, n: nat)
    ensures |SerialAll(ComponentElems(c.components))| < |ArrayBytes(c, n)|
  {
    hide SerialAll;
  }

  /** Where the last array or map of the token starts, heads not yet inserted. */
  function LastOpen(c: Claims): nat {
    |LeavesBytes(OpsBeforeComponents(c))| + LastComponent(c.components)
  }

  lemma InsideRun(s: State, c: Claims)
    requires Healthy(s) && s.top.count == 0 && |s.below| + 1 < MAX_NESTING
    requires |s.data| + LastOpen(c) < MAX_OFFSET
    requires |s.data| + |InsideBytes(c, Counted(|c.components|))| <= s.capacity
    ensures Run(s, OpsBeforeComponents(c) + ArrayCalls(c) + OpsAfterComponents(c))
            == Advanced(s, InsideBytes(c, Counted(|c.components|)), 14)
  {
    var before, after, n := OpsBeforeComponents(c), OpsAfterComponents(c), Counted(|c.components|);
    var a, g, b := LeavesBytes(before), ArrayBytes(c, n), LeavesBytes(after);
    assert InsideBytes(c, n) == a + g + b;
    hide Run, LeavesBytes, ArrayBytes, ArrayCalls, OpsBeforeComponents, OpsAfterComponents, SerialAll, Counted,
      InsideBytes, LastOpen;
    AroundAreLeaves(c);
    ArrayBytesAreLonger(c, n);
    BeforeArray(s, c);
    LeavesRun(Advanced(s, a + g, 10), after);
    AdvancedTwice(s, a + g, 10, b, 4);
    RunConcat(s, before + ArrayCalls(c), after);
  }

  lemma BeforeArray(s: State, c: Claims)
    requires var inside := LeavesBytes(OpsBeforeComponents(c)) + ArrayBytes(c, Counted(|c.components|));
             Healthy(s) && s.top.count == 0 && |s.below| + 1 < MAX_NESTING && |s.data| + LastOpen(c) < MAX_OFFSET
             && |s.data| + |inside| <= s.capacity
    ensures Run(s, OpsBeforeComponents(c) + ArrayCalls(c))
         == Advanced(s, LeavesBytes(OpsBeforeComponents(c)) + ArrayBytes(c, Counted(|c.components|)), 10)
  {
    var before, n := OpsBeforeComponents(c), Counted(|c.components|);
    var a, g := LeavesBytes(before), ArrayBytes(c, n);
    hide Run, LeavesBytes, ArrayBytes, ArrayCalls, OpsBeforeComponents, SerialAll, Counted, LastComponent;
    AroundAreLeaves(c);
    ArrayBytesAreLonger(c, n);
    LeavesRun(s, before);
    ArrayRun(Advanced(s, a, 9), c);
    AdvancedTwice(s, a, 9, g, 1);
    RunConcat(s, before, ArrayCalls(c));
  }

  lemma TokenBytesLength(c: Claims)
    ensures |TokenBytes(c, Counted(|c.components|))| <= TokenLength(c)
    ensures TokenBytes(c, Counted(|c.components|)) == Closed(DefMap, InsideBytes(c, Counted(|c.components|)), 14)
  {
    hide LeavesBytes, SerialAll;
    TokenBytesAre(c);
    TokenIsLong(c);
    assert Head(MAP, 0, 7) == Head(MAP, 0, 14 / 2);
  }

  lemma TokenCallsSplit(c: Claims)
    ensures TokenCalls(c) == [OpOpen(DefMap)] + (OpsBeforeComponents(c) + ArrayCalls(c) + OpsAfterComponents(c))
            + [OpClose(DefMap)]
  {
    hide OpsBeforeComponents, OpsAfterComponents, ComponentCalls;
  }

  lemma TokenRun(c: Claims, capacity: nat)
    requires LastOpen(c) < MAX_OFFSET && |EvidenceBytes(c)| <= capacity
    ensures var s := Run(Init(capacity), TokenCalls(c));
            FinishError(s) == Success && s.data == EvidenceBytes(c)
  {
    var inside := InsideBytes(c, Counted(|c.components|));
    TokenBytesLength(c);
    ClosedIsLonger(DefMap, inside, 14);
    MapInside(capacity);
    EvidenceIs(c);
    hide *;
    TokenCallsSplit(c);
    InsideRun(Nested(Advanced(Init(capacity), [], 1), MAP), c);
    DefiniteRun(Init(capacity), DefMap, OpsBeforeComponents(c) + ArrayCalls(c) + OpsAfterComponents(c), inside, 14);
    OnlyItem(capacity, EvidenceBytes(c));
  }

  lemma EvidenceIs(c: Claims)
    ensures EvidenceBytes(c) == TokenBytes(c, Counted(|c.components|))
  {
  }

  /** The state inside the outermost map. */
  lemma MapInside(capacity: nat)
    ensures var nested := Nested(Advanced(Init(capacity), [], 1), MAP);
            && Healthy(nested) && nested.data == [] && |nested.below| == 1 && nested.top.count == 0
               && nested.capacity == capacity
            && Step(Init(capacity), OpOpen(DefMap)) == nested
    ensures var s := Init(capacity);
            Healthy(s) && s.top.count == 0 && s.below == [] && s.data == [] && s.capacity == capacity
    ensures DefMap.Major() == MAP
  {
    OpenRun(Init(capacity), DefMap);
  }

  lemma OnlyItem(capacity: nat, b: bytes)
    ensures var s := Advanced(Init(capacity), b, 1); FinishError(s) == Success && s.data == b
  {
    assert [] + b == b;
  }

  /** With plenty of room, but a map or array that starts too far into it. */
  lemma LateTokenStuck(c: Claims, capacity: nat)
    requires LastOpen(c) >= MAX_OFFSET && |InsideBytes(c, |c.components|)| <= capacity
    ensures Stuck(Run(Init(capacity), TokenCalls(c)))
  {
    var before, after := OpsBeforeComponents(c), OpsAfterComponents(c);
    var s := Init(capacity);
    var nested := Nested(Advanced(s, [], 1), MAP);
    assert |LeavesBytes(before)| + |ArrayBytes(c, |c.components|)| <= capacity;
    MapInside(capacity);
    hide *;
    TokenCallsSplit(c);
    LateArrayStuck(nested, c);
    RunConcat(nested, before + ArrayCalls(c), after);
    RunStuck(Run(nested, before + ArrayCalls(c)), after);
    RunConcat(s, [OpOpen(DefMap)] + (before + ArrayCalls(c) + after), [OpClose(DefMap)]);
    RunConcat(s, [OpOpen(DefMap)], before + ArrayCalls(c) + after);
    RunOne(s, OpOpen(DefMap));
    RunStuck(Run(nested, before + ArrayCalls(c) + after), [OpClose(DefMap)]);
  }

  lemma LateArrayStuck(s: State, c: Claims)
    requires Healthy(s) && s.top.count == 0 && |s.below| == 1 && s.data == []
    requires LastOpen(c) >= MAX_OFFSET
             && |LeavesBytes(OpsBeforeComponents(c))| + |ArrayBytes(c, |c.components|)| <= s.capacity
    ensures Stuck(Run(s, OpsBeforeComponents(c) + ArrayCalls(c)))
  {
    hide *;
    var before, a := OpsBeforeComponents(c), LeavesBytes(OpsBeforeComponents(c));
    var t := Advanced(s, a, 9);
    AroundAreLeaves(c);
    ArrayBytesAreLonger(c, |c.components|);
    LeavesRun(s, before);
    LeavesAdvance(s, a);
    LastOpenIs(c);
    RunConcat(s, before, ArrayCalls(c));
    ArrayCallsAre(c);
    if |t.data| >= MAX_OFFSET {
      NotIndefinite();
      LateIsStuck(t, DefArray);
      StuckFrom(t, OpOpen(DefArray), ComponentCalls(c.components) + [OpClose(DefArray)]);
    } else {
      LateComponents(t, c.components);
    }
  }

  lemma NotIndefinite()
    ensures !DefArray.Indefinite()
  {
  }

  lemma LastOpenIs(c: Claims)
    ensures LastOpen(c) == |LeavesBytes(OpsBeforeComponents(c))| + LastComponent(c.components)
  {
    hide LeavesBytes, OpsBeforeComponents, LastComponent;
  }

  lemma ArrayCallsAre(c: Claims)
    ensures ArrayCalls(c) == [OpOpen(DefArray)] + (ComponentCalls(c.components) + [OpClose(DefArray)])
  {
    hide ComponentCalls;
  }

  lemma LeavesAdvance(s: State, a: bytes)
    requires Healthy(s) && s.top.count == 0 && |s.data| + |a| <= s.capacity
    ensures var t := Advanced(s, a, 9);
            && Healthy(t) && t.top.count == 9 && t.below == s.below && |t.data| == |s.data| + |a|
               && t.capacity == s.capacity
  {
  }

  lemma LateComponents(t: State, cs: seq<Component>)
    requires Healthy(t) && t.top.count == 9 && |t.below| == 1 && |t.data| < MAX_OFFSET
    requires |t.data| + LastComponent(cs) >= MAX_OFFSET && |t.data| + |SerialAll(ComponentElems(cs))| <= t.capacity
    ensures Stuck(Run(t, [OpOpen(DefArray)] + (ComponentCalls(cs) + [OpClose(DefArray)])))
  {
    var rest := ComponentCalls(cs) + [OpClose(DefArray)];
    var nested := Nested(Advanced(t, [], 1), ARRAY);
    ArrayInside(t);
    NothingBefore();
    hide *;
    ComponentsStuck(nested, cs);
    RunConcat(t, [OpOpen(DefArray)], rest);
    RunOne(t, OpOpen(DefArray));
    RunConcat(nested, ComponentCalls(cs), [OpClose(DefArray)]);
    RunStuck(Run(nested, ComponentCalls(cs)), [OpClose(DefArray)]);
  }

  lemma ArrayInside(t: State)
    requires Healthy(t) && t.top.count == 9 && |t.below| == 1 && |t.data| < MAX_OFFSET
    ensures var nested := Nested(Advanced(t, [], 1), ARRAY);
            && Healthy(nested) && nested.data == t.data && |nested.below| == 2 && nested.top.count == 0
            && nested.capacity == t.capacity && Step(t, OpOpen(DefArray)) == nested
  {
    OpenRun(t, DefArray);
  }

  /**
    What encode_evidence_to_cbor leaves, for any claims in a buffer of any size:
    these bytes, or it is refused for lack of room, or because an array or map
    would start behind the first 4 GiB.
   */
  lemma EvidenceExactly(c: Claims, capacity: nat)
    ensures var s := Run(Init(capacity), TokenCalls(c));
            if LastOpen(c) >= MAX_OFFSET then FinishError(s) != Success
            else if |EvidenceBytes(c)| <= capacity then FinishError(s) == Success && s.data == EvidenceBytes(c)
            else FinishError(s) == BufferTooSmall
    ensures |EvidenceBytes(c)| <= TokenLength(c)
    ensures |c.components| <= MOST ==> EvidenceBytes(c) == SerialAll(Token(c)) && |EvidenceBytes(c)| == TokenLength(c)
  {
    var inside := |InsideBytes(c, |c.components|)|;
    TokenBytesLength(c);
    TokenBytesAre(c);
    TokenIsLong(c);
    hide Run, TokenLength, SerialAll, TokenCalls, Token, TokenBytes, LastOpen, InsideBytes, Stuck;
    if LastOpen(c) >= MAX_OFFSET {
      var large := capacity + inside;
      LateTokenStuck(c, large);
      InSmaller(large, capacity, TokenCalls(c));
    } else if |EvidenceBytes(c)| <= capacity {
      TokenRun(c, capacity);
    } else {
      TokenRun(c, |EvidenceBytes(c)|);
      InSmaller(|EvidenceBytes(c)|, capacity, TokenCalls(c));
    }
  }

  lemma InSmaller(large: nat, capacity: nat, ops: seq<Op>)
    requires capacity <= large
    ensures var big, s := Run(Init(large), ops), Run(Init(capacity), ops);
            && (Stuck(big) ==> FinishError(s) != Success)
            && (|big.data| > capacity ==> FinishError(s) == BufferTooSmall)
  {
    SizeCalculation.RunAgrees(Init(large), capacity, ops);
    hide Run;
  }

  /**
    Encoding succeeds with the token exactly when it fits, starts no array or map
    behind the first 4 GiB and has at most 65533 components; with more of them it
    succeeds all the same, but the head of the array claims fewer than follow.
   */
  lemma TokenIsRightIff(c: Claims, capacity: nat)
    requires |c.components| <= SIZE_MAX
    ensures var s := Run(Init(capacity), TokenCalls(c));
            FinishError(s) == Success && s.data == SerialAll(Token(c)) <==>
              LastOpen(c) < 4_294_967_195 && |SerialAll(Token(c))| <= capacity && |c.components| <= 65533
  {
    hide Run, TokenLength, SerialAll, TokenCalls, Token, TokenBytes, LastOpen;
    EvidenceExactly(c, capacity);
    TokenBytesAre(c);
    if |c.components| > MOST {
      WrongCount(c);
    }
  }

  /** In the claims of a device the maps and arrays start early, however long the nonce. */
  lemma AttestedStartsEarly(c: Claims)
    requires AsAttested(c)
    ensures LastOpen(c) < MAX_OFFSET && |c.components| <= MOST
  {
    hide LeavesBytes, SerialAll, OpsBeforeComponents, ComponentElems;
    BeforeLength(c);
    ComponentsAreLong(c.components[..1]);
    TwoComponents(c.components[0], c.components[0]);
    assert c.components[..1] == [c.components[0]];
  }

  lemma WrongCount(c: Claims)
    requires MOST < |c.components| <= SIZE_MAX
    ensures TokenBytes(c, MOST) != TokenBytes(c, |c.components|)
  {
    var before, body, after := LeavesBytes(OpsBeforeComponents(c)), SerialAll(ComponentElems(c.components)),
      LeavesBytes(OpsAfterComponents(c));
    assert forall n: nat :: TokenBytes(c, n) == Head(MAP, 0, 7) + (before + (Head(ARRAY, 0, n) + body) + after);
    hide *;
    HeadsDiffer(Head(MAP, 0, 7), before, body, after, MOST, |c.components|);
  }

  lemma HeadsDiffer(first: bytes, before: bytes, body: bytes, after: bytes, m: uint64, n: uint64)
    requires m != n
    ensures first + (before + (Head(ARRAY, 0, m) + body) + after) != first
            + (before + (Head(ARRAY, 0, n) + body) + after)
  {
    hide Head, ParseHead;
    var front, rest := first + before, body + after;
    var h, h' := Head(ARRAY, 0, m) + rest, Head(ARRAY, 0, n) + rest;
    HeadRoundTrip(ARRAY, 0, m, rest);
    HeadRoundTrip(ARRAY, 0, n, rest);
    assert h != h';
    assert first + (before + (Head(ARRAY, 0, m) + body) + after) == front + h;
    assert first + (before + (Head(ARRAY, 0, n) + body) + after) == front + h';
    assert (front + h)[|front|..] == h && (front + h')[|front|..] == h';
  }
}
