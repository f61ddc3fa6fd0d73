/**
  Forests of leaves, arrays, maps and wraps: how their calls, bytes and meanings
  compose, and what becomes of a forest in a buffer of any size.
 */
module PlainForest {
  import opened BigEndian
  import opened EncoderSpec
  import opened CborForest
  import opened CborDecoder
  import SizeCalculation

  /** A forest of nothing but leaves. */
  function Leaves(ops: seq<Op>): (es: seq<Elem>)
    ensures |es| == |ops|
    ensures forall i :: 0 <= i < |ops| ==> es[i] == Leaf(ops[i])
  {
    if ops == [] then [] else Leaves(ops[..|ops| - 1]) + [Leaf(ops[|ops| - 1])]
  }

  function LeavesBytes(ops: seq<Op>): bytes {
    if ops == [] then [] else LeavesBytes(ops[..|ops| - 1]) + LeafBytes(ops[|ops| - 1])
  }

  lemma {:induction false} LeavesAll(ops: seq<Op>)
    ensures Ops(Leaves(ops)) == ops && SerialAll(Leaves(ops)) == LeavesBytes(ops)
  {
    if ops != [] {
      var front, es := ops[..|ops| - 1], Leaves(ops);
      LeavesAll(front);
      assert es[..|es| - 1] == Leaves(front);
      assert ops == front + [ops[|ops| - 1]];
    }
  }

  /** Leaves that are neither tags nor simple values, in groups of at most the given height. */
  predicate Plain(e: Elem, height: nat)
    decreases e
  {
    match e
    case Leaf(op) => op.OpUInt? || op.OpInt? || op.OpBuffer?
    case Group(_, items) => height > 0 && |items| < MAX_ITEMS && PlainAll(items, height - 1)
    case _ => false
  }

  predicate PlainAll(es: seq<Elem>, height: nat) {
    forall i :: 0 <= i < |es| ==> Plain(es[i], height)
  }

  lemma {:induction false} PlainCount(es: seq<Elem>, height: nat)
    requires PlainAll(es, height)
    ensures Count(es) == |es|
  {
    if es != [] {
      PlainCount(es[..|es| - 1], height);
    }
  }

  /** A few leaves fit anywhere. */
  lemma {:induction false} LeavesFit(ops: seq<Op>, pos: nat, depth: nat)
    requires |ops| < MAX_ITEMS && forall i :: 0 <= i < |ops| ==> ops[i].OpInt? || ops[i].OpBuffer?
    ensures FitAll(Leaves(ops), pos, depth, false) && Count(Leaves(ops)) == |ops|
    decreases |ops|
  {
    if ops != [] {
      var front, last := ops[..|ops| - 1], ops[|ops| - 1];
      LeavesFit(front, pos, depth);
      assert Leaves(ops) == Leaves(front) + [Leaf(last)];
      AllSplit(Leaves(ops), pos, depth, false);
    }
  }

  /** Leaves decode one by one. */
  lemma {:induction false} LeavesWellFormed(ops: seq<Op>)
    requires forall i :: 0 <= i < |ops| ==> WellFormed(Leaf(ops[i])) && !ops[i].OpTag?
    ensures WellFormedAll(Leaves(ops))
            && MeaningAll(Leaves(ops)) == seq(|ops|, i requires 0 <= i < |ops| => LeafMeaning(ops[i]))
    decreases |ops|
  {
    if ops != [] {
      var others := Leaves(ops)[1..];
      assert others == Leaves(ops[1..]);
      LeavesWellFormed(ops[1..]);
    }
  }

  predicate IsTag(e: Elem) {
    e.Leaf? && e.op.OpTag?
  }

  /** An element in front of data items: a tag takes in the first of them. */
  function Led(e: Elem, ds: seq<Data>): seq<Data> {
    if Weight(e) == 1 then [Meaning(e)] + ds
    else if IsTag(e) && ds != [] then [Tagged(e.op.tag, ds[0])] + ds[1..]
    else ds
  }

  lemma LedConcat(e: Elem, ds: seq<Data>, others: seq<Data>)
    requires IsTag(e) ==> ds != []
    ensures Led(e, ds + others) == Led(e, ds) + others
  {
    hide Meaning, Weight;
    if Weight(e) == 1 {
      assert [Meaning(e)] + (ds + others) == ([Meaning(e)] + ds) + others;
    } else if IsTag(e) {
      assert (ds + others)[1..] == ds[1..] + others;
      assert [Tagged(e.op.tag, ds[0])] + (ds[1..] + others) == ([Tagged(e.op.tag, ds[0])] + ds[1..]) + others;
    }
  }

  lemma WellFormedCons(e: Elem, es: seq<Elem>)
    ensures WellFormedAll([e] + es) <==> WellFormed(e) && WellFormedAll(es) && (IsTag(e) ==> Count(es) > 0)
    ensures MeaningAll([e] + es) == Led(e, MeaningAll(es))
  {
    hide WellFormed, Meaning, Count, Weight;
    assert ([e] + es)[1..] == es;
  }

  lemma {:induction false} WellFormedConcat(a: seq<Elem>, b: seq<Elem>)
    requires WellFormedAll(a) && WellFormedAll(b)
    ensures WellFormedAll(a + b) && MeaningAll(a + b) == MeaningAll(a) + MeaningAll(b)
    decreases |a|
  {
    if a == [] {
      assert a + b == b;
    } else {
      hide *;
      var e, es := a[0], a[1..];
      assert a == [e] + es && a + b == [e] + (es + b);
      WellFormedCons(e, es);
      WellFormedConcat(es, b);
      WellFormedCons(e, es + b);
      Concat(es, b);
      MeaningCount(es);
      LedConcat(e, MeaningAll(es), MeaningAll(b));
    }
  }

  /** A forest within the limits is written into every buffer that holds it, and refused for any other. */
  lemma FitsExactly(f: seq<Elem>, capacity: nat)
    requires FitAll(f, 0, 0, false)
    ensures var s := Run(Init(capacity), Ops(f));
            if |SerialAll(f)| <= capacity then FinishError(s) == Success && s.data == SerialAll(f)
            else FinishError(s) == BufferTooSmall
  {
    if |SerialAll(f)| <= capacity {
      EncodesForest(capacity, f);
    } else {
      EncodesForest(|SerialAll(f)|, f);
      SizeCalculation.RunAgrees(Init(|SerialAll(f)|), capacity, Ops(f));
    }
  }
}
