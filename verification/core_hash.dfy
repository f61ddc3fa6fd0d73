/**
  get_hash_tee_memory of hash.c and compute-prot-refval.py: the measurement of the
  core's immutable memory, on the device and from the ELF file.
 */
module CoreHash {
  import opened BigEndian
  import opened Hashing
  import opened RegionHash

  datatype Span = Span(start: nat, end: nat) {
    predicate Contains(a: nat) {
      start <= a < end
    }
  }

  // ----- reading an address range -----

  /** A program header with the file content of its segment. */
  datatype Segment = Segment(isLoad: bool, vaddr: nat, data: bytes) {
    function End(): nat {
      vaddr + |data|
    }

    predicate Holds(a: nat) {
      isLoad && vaddr <= a < End()
    }
  }

  datatype Read = Bytes(b: bytes) | NotFullyCovered

  function Max(a: nat, b: nat): nat {
    if a < b then b else a
  }

  function Min(a: nat, b: nat): nat {
    if a < b then a else b
  }

  /** How many addresses of the span a segment contributes. */
  function Overlap(seg: Segment, span: Span): nat {
    var lo, hi := Max(span.start, seg.vaddr), Min(span.end, seg.End());
    if !seg.isLoad || lo >= hi then 0 else hi - lo
  }

  /** What the script adds up. */
  function CoveredCount(segs: seq<Segment>, span: Span): nat {
    if segs == [] then 0 else CoveredCount(segs[..|segs| - 1], span) + Overlap(segs[|segs| - 1], span)
  }

  /** The byte at an address: of the last segment that has it, zero when none has. */
  function ByteAt(segs: seq<Segment>, a: nat): byte {
    if segs == [] then 0
    else if segs[|segs| - 1].Holds(a) then segs[|segs| - 1].data[a - segs[|segs| - 1].vaddr]
    else ByteAt(segs[..|segs| - 1], a)
  }

  lemma NoSegments()
    ensures forall span :: CoveredCount([], span) == 0
    ensures forall a :: ByteAt([], a) == 0
  {
  }

  lemma ByteAtMore(segs: seq<Segment>, i: nat)
    requires i < |segs|
    ensures forall span :: CoveredCount(segs[..i + 1], span) == CoveredCount(segs[..i], span) + Overlap(segs[i], span)
    ensures forall a: nat :: ByteAt(segs[..i + 1], a) == if segs[i].Holds(a) then segs[i].data[a - segs[i].vaddr]
            else ByteAt(segs[..i], a)
  {
    assert segs[..i + 1][..i] == segs[..i];
  }

  /** read_va_range: splices segment content into a zeroed buffer and counts. */
  method ReadVaRange(segs: seq<Segment>, span: Span) returns (r: Read)
    ensures span.end <= span.start ==> r == Bytes([])
    ensures span.start < span.end ==> (r.Bytes? <==> CoveredCount(segs, span) == span.end - span.start)
    ensures span.start < span.end && r.Bytes? ==>
              |r.b| == span.end - span.start && forall a :: span.start <= a < span.end ==>
                  r.b[a - span.start] == ByteAt(segs, a)
  {
    hide CoveredCount, ByteAt;
    if span.end <= span.start {
      return Bytes([]);
    }
    NoSegments();
    var start, end := span.start, span.end;
    var out := new byte[end - start](_ => 0);
    var covered := 0;
    for i := 0 to |segs|
      invariant covered == CoveredCount(segs[..i], span)
      invariant forall k :: 0 <= k < end - start ==> out[k] == ByteAt(segs[..i], start + k)
    {
      var seg := segs[i];
      ByteAtMore(segs, i);
      if seg.isLoad {
        var lo, hi := Max(start, seg.vaddr), Min(end, seg.End());
        if lo < hi {
          forall k | lo - start <= k < hi - start {
            out[k] := seg.data[start + k - seg.vaddr];
          }
          covered := covered + (hi - lo);
        }
      }
      forall k | 0 <= k < end - start ensures out[k] == ByteAt(segs[..i + 1], start + k) {
        assert seg.Holds(start + k) <==> seg.isLoad && seg.vaddr <= start + k < seg.End();
      }
    }
    assert segs[..|segs|] == segs;
    if covered != end - start {
      return NotFullyCovered;
    }
    forall a | start <= a < end ensures out[a - start] == ByteAt(segs, a) {
      assert start + (a - start) == a;
    }
    return Bytes(out[..]);
  }

  // ----- counting decides cover -----

  predicate Covered(segs: seq<Segment>, a: nat) {
    exists i :: 0 <= i < |segs| && segs[i].Holds(a)
  }

  predicate FullyCovered(segs: seq<Segment>, span: Span) {
    forall a :: span.start <= a < span.end ==> Covered(segs, a)
  }

  /** No address of the span lies in two segments. */
  predicate DisjointIn(segs: seq<Segment>, span: Span) {
    forall i, j, a :: 0 <= i < j < |segs| && span.start <= a < span.end && segs[i].Holds(a) ==> !segs[j].Holds(a)
  }

  ghost function Addresses(span: Span): set<nat> {
    set a: nat | span.start <= a < span.end && span.Contains(a)
  }

  ghost function SegmentSet(seg: Segment, span: Span): set<nat> {
    set a: nat | span.start <= a < span.end && seg.Holds(a)
  }

  ghost function CoveredSet(segs: seq<Segment>, span: Span): set<nat> {
    if segs == [] then {} else CoveredSet(segs[..|segs| - 1], span) + SegmentSet(segs[|segs| - 1], span)
  }

  lemma {:induction false} CoveredSetIs(segs: seq<Segment>, span: Span, a: nat)
    ensures a in CoveredSet(segs, span) <==> span.start <= a < span.end && Covered(segs, a)
  {
    if segs != [] {
      var front, last := segs[..|segs| - 1], segs[|segs| - 1];
      CoveredSetIs(front, span, a);
      if Covered(segs, a) && !last.Holds(a) {
        var i :| 0 <= i < |segs| && segs[i].Holds(a);
        assert front[i].Holds(a);
      }
      if Covered(front, a) {
        var i :| 0 <= i < |front| && front[i].Holds(a);
        assert segs[i].Holds(a);
      }
      if last.Holds(a) {
        assert segs[|segs| - 1].Holds(a);
      }
    }
  }

  lemma {:induction false} IntervalSize(span: Span)
    ensures |Addresses(span)| == if span.start < span.end then span.end - span.start else 0
    decreases span.end
  {
    if span.start < span.end {
      var shorter := Span(span.start, span.end - 1);
      IntervalSize(shorter);
      assert Addresses(span) == Addresses(shorter) + {span.end - 1};
    } else {
      assert Addresses(span) == {};
    }
  }

  lemma SegmentSize(seg: Segment, span: Span)
    ensures |SegmentSet(seg, span)| == Overlap(seg, span)
  {
    var lo, hi := Max(span.start, seg.vaddr), Min(span.end, seg.End());
    IntervalSize(Span(lo, hi));
    if seg.isLoad {
      assert SegmentSet(seg, span) == Addresses(Span(lo, hi));
    } else {
      assert SegmentSet(seg, span) == {};
    }
  }

  lemma UnionSize(a: set<nat>, b: set<nat>)
    ensures |a + b| + |a * b| == |a| + |b|
  {
    assert a + b == (a - b) + b && a == (a - b) + a * b;
  }

  lemma EmptyIff(a: set<nat>)
    ensures |a| == 0 <==> a == {}
  {
  }

  /** The sum is the number of addresses covered exactly when none is covered twice; otherwise it is larger. */
  lemma {:induction false} CountIsSizeIff(segs: seq<Segment>, span: Span)
    ensures |CoveredSet(segs, span)| <= CoveredCount(segs, span)
    ensures |CoveredSet(segs, span)| == CoveredCount(segs, span) <==> DisjointIn(segs, span)
  {
    if segs != [] {
      var front, last := segs[..|segs| - 1], segs[|segs| - 1];
      var covered, more := CoveredSet(front, span), SegmentSet(last, span);
      CountIsSizeIff(front, span);
      SegmentSize(last, span);
      UnionSize(covered, more);
      EmptyIff(covered * more);
      DisjointFromLastIff(segs, span);
    }
  }

  lemma DisjointFromLastIff(segs: seq<Segment>, span: Span)
    requires segs != []
    ensures var front, last := segs[..|segs| - 1], segs[|segs| - 1];
            DisjointIn(segs, span) <==>
              DisjointIn(front, span) && CoveredSet(front, span) * SegmentSet(last, span) == {}
  {
    var front, last := segs[..|segs| - 1], segs[|segs| - 1];
    var both := CoveredSet(front, span) * SegmentSet(last, span);
    if DisjointIn(segs, span) {
      FrontDisjoint(segs, span);
      forall a | a in CoveredSet(front, span) ensures a !in SegmentSet(last, span) {
        CoveredSetIs(front, span, a);
        var i :| 0 <= i < |front| && front[i].Holds(a);
        assert segs[i].Holds(a) && segs[|segs| - 1] == last;
      }
      assert both == {};
    }
    if DisjointIn(front, span) && both == {} {
      forall i, j, a | 0 <= i < j < |segs| && span.start <= a < span.end && segs[i].Holds(a) ensures !segs[j].Holds(a) {
        assert front[i].Holds(a);
        CoveredSetIs(front, span, a);
        if j == |segs| - 1 {
          assert a !in both;
        } else {
          assert front[j] == segs[j];
        }
      }
    }
  }

  lemma FrontDisjoint(segs: seq<Segment>, span: Span)
    requires segs != [] && DisjointIn(segs, span)
    ensures DisjointIn(segs[..|segs| - 1], span)
  {
    var front := segs[..|segs| - 1];
    forall i, j, a | 0 <= i < j < |front| && span.start <= a < span.end && front[i].Holds(a)
      ensures !front[j].Holds(a)
    {
      assert segs[i] == front[i] && segs[j] == front[j];
    }
  }

  lemma CoveredSetWithin(segs: seq<Segment>, span: Span)
    ensures CoveredSet(segs, span) <= Addresses(span)
    ensures FullyCovered(segs, span) <==> CoveredSet(segs, span) == Addresses(span)
  {
    hide CoveredSet, Covered;
    forall a ensures a in CoveredSet(segs, span) <==> a in Addresses(span) && Covered(segs, a) {
      CoveredSetIs(segs, span, a);
    }
    if CoveredSet(segs, span) == Addresses(span) {
      forall a: nat | span.start <= a < span.end ensures Covered(segs, a) {
        assert a in Addresses(span);
      }
    }
  }

  lemma SubsetSize(a: set<nat>, b: set<nat>)
    requires a <= b
    ensures |a| <= |b| && (|a| == |b| <==> a == b)
  {
    assert b == a + (b - a);
    EmptyIff(b - a);
  }

  lemma FullCoverIsFullSize(segs: seq<Segment>, span: Span)
    requires span.start < span.end
    ensures |CoveredSet(segs, span)| <= span.end - span.start
    ensures FullyCovered(segs, span) <==> |CoveredSet(segs, span)| == span.end - span.start
  {
    hide *;
    IntervalSize(span);
    CoveredSetWithin(segs, span);
    SubsetSize(CoveredSet(segs, span), Addresses(span));
  }

  /** For segments that do not overlap, counting decides full cover. */
  lemma CountDecidesCover(segs: seq<Segment>, span: Span)
    requires DisjointIn(segs, span) && span.start < span.end
    ensures CoveredCount(segs, span) == span.end - span.start <==> FullyCovered(segs, span)
  {
    CountIsSizeIff(segs, span);
    FullCoverIsFullSize(segs, span);
  }

  /** A range that is all there is read if and only if nothing in it is there twice. */
  lemma CoveredRangeIsReadIff(segs: seq<Segment>, span: Span)
    requires FullyCovered(segs, span) && span.start < span.end
    ensures CoveredCount(segs, span) == span.end - span.start <==> DisjointIn(segs, span)
  {
    CountIsSizeIff(segs, span);
    FullCoverIsFullSize(segs, span);
  }

  /** Without that assumption a gap can be hidden by an overlap: the same byte counted twice, the other not there. */
  lemma OverlapHidesGap()
    ensures var segs, span := [Segment(true, 0, [7]), Segment(true, 0, [7])], Span(0, 2);
            CoveredCount(segs, span) == 2 && !FullyCovered(segs, span)
  {
    var seg := Segment(true, 0, [7]);
    var segs, span := [seg, seg], Span(0, 2);
    assert segs[..1] == [seg] && [seg][..0] == [];
    assert Overlap(seg, span) == 1;
    assert CoveredCount([seg], span) == 1;
    assert !Covered(segs, 1);
  }

  // ----- the two measurements -----

  /** The addresses of the linker symbols. */
  datatype Layout = Layout(text: Span, textData: Span, textInit: Span, textPageable: Span,
                           rodata: Span, rodataInit: Span, rodataPageable: Span) {
    /** What is hashed, in order: text around its data, then read-only data, with the parts of a paged build. */
    function Spans(withPager: bool): seq<Span> {
      [Span(text.start, textData.start), Span(textData.end, text.end)]
      + (if withPager then [textInit, textPageable] else [])
      + [rodata]
      + (if withPager then [rodataInit, rodataPageable] else [])
    }

    /** As a linker lays them out. */
    predicate Ordered(withPager: bool) {
      forall s :: s in Spans(withPager) ==> s.start <= s.end
    }
  }

  function MemoryOf(memory: Memory, span: Span): (b: bytes)
    requires span.start <= span.end
    ensures |b| == span.end - span.start
  {
    seq(span.end - span.start, i requires 0 <= i => memory(span.start + i))
  }

  function Stream(memory: Memory, spans: seq<Span>): bytes
    requires forall s :: s in spans ==> s.start <= s.end
  {
    if spans == [] then [] else Stream(memory, spans[..|spans| - 1]) + MemoryOf(memory, spans[|spans| - 1])
  }

  lemma StreamMore(memory: Memory, front: seq<Span>, span: Span)
    requires forall s :: s in front ==> s.start <= s.end
    requires span.start <= span.end
    ensures Stream(memory, front + [span]) == Stream(memory, front) + MemoryOf(memory, span)
  {
    assert (front + [span])[..|front|] == front;
  }

  /** All calls so far have succeeded, and these spans have been fed. */
  ghost predicate Streamed(ctx: CryptoHash, memory: Memory, front: seq<Span>)
    requires forall s :: s in front ==> s.start <= s.end
    reads ctx
  {
    ctx.calls == |front| + 2 && FirstError(ctx.answers, |front| + 2) == TEE_SUCCESS && ctx.fed == Stream(memory, front)
  }

  method HashSpan(ctx: CryptoHash, memory: Memory, ghost front: seq<Span>, span: Span) returns (res: nat)
    requires span.start <= span.end && forall s :: s in front ==> s.start <= s.end
    requires Streamed(ctx, memory, front)
    modifies ctx
    ensures res == FirstError(ctx.answers, |front| + 3)
    ensures res == TEE_SUCCESS ==> Streamed(ctx, memory, front + [span])
  {
    StreamMore(memory, front, span);
    res := ctx.Update(MemoryOf(memory, span));
  }

  /** The updates with the spans in order, up to the first that fails. */
  method HashSpans(ctx: CryptoHash, memory: Memory, layout: Layout, withPager: bool) returns (res: nat)
    requires layout.Ordered(withPager) && Streamed(ctx, memory, [])
    modifies ctx
    ensures var spans := layout.Spans(withPager);
            && res == FirstError(ctx.answers, |spans| + 2)
            && (res == TEE_SUCCESS ==> Streamed(ctx, memory, spans))
  {
    hide Stream, FirstError, Streamed;
    ghost var spans := layout.Spans(withPager);
    res := HashText(ctx, memory, layout);
    if res != TEE_SUCCESS {
      FirstErrorStays(ctx.answers, 4, |spans| + 2);
      return;
    }
    assert spans[..2] == [Span(layout.text.start, layout.textData.start), Span(layout.textData.end, layout.text.end)];
    if withPager {
      res := HashPair(ctx, memory, spans[..2], layout.textInit, layout.textPageable);
      if res != TEE_SUCCESS {
        FirstErrorStays(ctx.answers, 6, |spans| + 2);
        return;
      }
      assert spans[..2] + [layout.textInit, layout.textPageable] == spans[..4];
    }
    ghost var k := if withPager then 4 else 2;
    res := HashSpan(ctx, memory, spans[..k], layout.rodata);
    if res != TEE_SUCCESS {
      FirstErrorStays(ctx.answers, k + 3, |spans| + 2);
      return;
    }
    assert spans[..k] + [layout.rodata] == spans[..k + 1];
    if withPager {
      res := HashPair(ctx, memory, spans[..5], layout.rodataInit, layout.rodataPageable);
      assert spans[..5] + [layout.rodataInit, layout.rodataPageable] == spans;
    } else {
      assert spans[..3] == spans;
    }
  }

  method HashText(ctx: CryptoHash, memory: Memory, layout: Layout) returns (res: nat)
    requires layout.text.start <= layout.textData.start && layout.textData.end <= layout.text.end
    requires Streamed(ctx, memory, [])
    modifies ctx
    ensures var spans := [Span(layout.text.start, layout.textData.start), Span(layout.textData.end, layout.text.end)];
            res == FirstError(ctx.answers, 4) && (res == TEE_SUCCESS ==> Streamed(ctx, memory, spans))
  {
    var first, second := Span(layout.text.start, layout.textData.start), Span(layout.textData.end, layout.text.end);
    res := HashPair(ctx, memory, [], first, second);
    assert [] + [first, second] == [first, second];
  }

  /** Two updates in a row. */
  method HashPair(ctx: CryptoHash, memory: Memory, ghost front: seq<Span>, first: Span, second: Span) returns (res: nat)
    requires first.start <= first.end && second.start <= second.end && forall s :: s in front ==> s.start <= s.end
    requires Streamed(ctx, memory, front)
    modifies ctx
    ensures res == FirstError(ctx.answers, |front| + 4)
    ensures res == TEE_SUCCESS ==> Streamed(ctx, memory, front + [first, second])
  {
    hide Stream, FirstError, Streamed;
    res := HashSpan(ctx, memory, front, first);
    if res != TEE_SUCCESS {
      FirstErrorStays(ctx.answers, |front| + 3, |front| + 4);
      return;
    }
    res := HashSpan(ctx, memory, front + [first], second);
    assert front + [first] + [second] == front + [first, second];
  }

  /** get_hash_tee_memory. */
  method GetHashTeeMemory(memory: Memory, layout: Layout, withPager: bool, outSize: nat, hash: Hash,
                          answers: nat -> nat)
    returns (r: HashResult)
    requires layout.Ordered(withPager)
    ensures var spans := layout.Spans(withPager);
            if outSize < 32 then r == Failed(0xffff_0010)
            else if FirstError(answers, |spans| + 3) != 0 then r == Failed(FirstError(answers, |spans| + 3))
            else r == Digest(hash(Stream(memory, spans)))
  {
    hide Stream;
    ghost var n := |layout.Spans(withPager)|;
    if outSize < SHA256_SIZE {
      return Failed(TEE_ERROR_SHORT_BUFFER);
    }
    Errors(answers, n);
    var ctx := new CryptoHash(hash, answers);
    var res := ctx.AllocCtx();
    if res != TEE_SUCCESS {
      FirstErrorStays(answers, 1, n + 3);
      return Failed(res);
    }
    res := ctx.Init();
    if res != TEE_SUCCESS {
      FirstErrorStays(answers, 2, n + 3);
      return Failed(res);
    }
    NothingStreamed(memory);
    hide FirstError;
    res := HashSpans(ctx, memory, layout, withPager);
    if res != TEE_SUCCESS {
      return Failed(res);
    }
    var digest;
    res, digest := ctx.Final();
    return if res == TEE_SUCCESS then Digest(digest) else Failed(res);
  }

  lemma NothingStreamed(memory: Memory)
    ensures Stream(memory, []) == []
  {
  }

  // ----- the script -----

  type Symbols = map<string, nat>

  datatype Reference = Reference(digest: bytes) | MissingSymbol | Uncovered

  function Named(syms: Symbols, first: string, last: string): Span
    requires first in syms && last in syms
  {
    Span(syms[first], syms[last])
  }

  /** The symbols that the script asks for, in pairs; those of a paged build when the first of them is there. */
  function Wanted(syms: Symbols): seq<(string, string)> {
    [("__text_start", "__text_data_start"), ("__text_data_end", "__text_end")]
    + (if "__text_init_start" in syms then
         [("__text_init_start", "__text_init_end"), ("__text_pageable_start", "__text_pageable_end")]
       else [])
    + [("__rodata_start", "__rodata_end")]
    + (if "__rodata_init_start" in syms then
         [("__rodata_init_start", "__rodata_init_end"), ("__rodata_pageable_start", "__rodata_pageable_end")]
       else [])
  }

  predicate HasSymbols(syms: Symbols) {
    forall i :: 0 <= i < |Wanted(syms)| ==> Wanted(syms)[i].0 in syms && Wanted(syms)[i].1 in syms
  }

  function SpansOf(syms: Symbols): (spans: seq<Span>)
    requires HasSymbols(syms)
    ensures |spans| == |Wanted(syms)|
  {
    var wanted := Wanted(syms);
    seq(|wanted|, i requires 0 <= i < |wanted| => Named(syms, wanted[i].0, wanted[i].1))
  }

  /** A core without pager needs six symbols and no other. */
  lemma SixSymbolsSuffice(syms: Symbols)
    requires "__text_init_start" !in syms && "__rodata_init_start" !in syms
    ensures HasSymbols(syms)
       <==> {"__text_start", "__text_data_start", "__text_data_end", "__text_end", "__rodata_start", "__rodata_end"}
            <= syms.Keys
    ensures HasSymbols(syms) ==>
              SpansOf(syms) == [Named(syms, "__text_start", "__text_data_start"),
                                Named(syms, "__text_data_end", "__text_end"),
                                Named(syms, "__rodata_start", "__rodata_end")]
  {
    var w := Wanted(syms);
    assert |w| == 3;
    assert w[0] == ("__text_start", "__text_data_start") && w[1] == ("__text_data_end", "__text_end");
    assert w[2] == ("__rodata_start", "__rodata_end");
  }

  /** The memory that the segments load. */
  ghost predicate Loads(segs: seq<Segment>, memory: Memory) {
    forall i, a: nat :: 0 <= i < |segs| && segs[i].Holds(a) ==> memory(a) == segs[i].data[a - segs[i].vaddr]
  }

  lemma {:induction false} ByteAtIsMemory(segs: seq<Segment>, memory: Memory, a: nat)
    requires Loads(segs, memory) && Covered(segs, a)
    ensures ByteAt(segs, a) == memory(a)
  {
    var front, last := segs[..|segs| - 1], segs[|segs| - 1];
    if last.Holds(a) {
      assert segs[|segs| - 1] == last;
    } else {
      var i :| 0 <= i < |segs| && segs[i].Holds(a);
      assert front[i].Holds(a);
      assert Loads(front, memory) by {
        forall i, a: nat | 0 <= i < |front| && front[i].Holds(a)
          ensures memory(a) == front[i].data[a - front[i].vaddr]
        {
          assert segs[i] == front[i];
        }
      }
      ByteAtIsMemory(front, memory, a);
    }
  }

  /** Every span is there in full, and none of its addresses twice. */
  ghost predicate AllReadable(segs: seq<Segment>, spans: seq<Span>) {
    forall s :: s in spans ==> s.start <= s.end && FullyCovered(segs, s) && DisjointIn(segs, s)
  }

  method ReadSpan(segs: seq<Segment>, span: Span, ghost memory: Memory) returns (r: Read)
    ensures Loads(segs, memory) && span.start <= span.end && DisjointIn(segs, span) ==>
              if FullyCovered(segs, span) then r == Bytes(MemoryOf(memory, span)) else r == NotFullyCovered
  {
    hide CoveredCount, FullyCovered, DisjointIn;
    r := ReadVaRange(segs, span);
    if Loads(segs, memory) && span.start <= span.end && DisjointIn(segs, span) {
      if span.start < span.end {
        CountDecidesCover(segs, span);
        if FullyCovered(segs, span) {
          SpanIsMemory(segs, span, memory, r.b);
        }
      } else {
        EmptySpanCovered(segs, span);
        assert MemoryOf(memory, span) == [];
      }
    }
  }

  lemma EmptySpanCovered(segs: seq<Segment>, span: Span)
    requires span.end <= span.start
    ensures FullyCovered(segs, span)
  {
  }

  lemma SpanIsMemory(segs: seq<Segment>, span: Span, memory: Memory, b: bytes)
    requires Loads(segs, memory) && FullyCovered(segs, span) && span.start <= span.end
    requires |b| == span.end - span.start && forall a :: span.start <= a < span.end ==>
               b[a - span.start] == ByteAt(segs, a)
    ensures b == MemoryOf(memory, span)
  {
    hide ByteAt, Loads, Covered;
    forall i | 0 <= i < |b| ensures b[i] == MemoryOf(memory, span)[i] {
      var a := span.start + i;
      assert b[a - span.start] == ByteAt(segs, a);
      ByteAtIsMemory(segs, memory, a);
    }
  }

  /** main: the spans in order, or the first thing that is missing. */
  method ReferenceValue(segs: seq<Segment>, syms: Symbols, hash: Hash, ghost memory: Memory) returns (r: Reference)
    ensures r == MissingSymbol <==>
              exists i :: 0 <= i < |Wanted(syms)| && !({Wanted(syms)[i].0, Wanted(syms)[i].1} <= syms.Keys)
    ensures Loads(segs, memory) && HasSymbols(syms)
            && (forall s :: s in SpansOf(syms) ==> s.start <= s.end && DisjointIn(segs, s)) ==>
              if AllReadable(segs, SpansOf(syms)) then r == Reference(hash(Stream(memory, SpansOf(syms))))
                else r == Uncovered
  {
    hide Loads, FullyCovered, DisjointIn, SpansOf, Stream, MemoryOf;
    if !HasSymbols(syms) {
      return MissingSymbol;
    }
    var spans := SpansOf(syms);
    ghost var sound := Loads(segs, memory) && forall s :: s in spans ==> s.start <= s.end && DisjointIn(segs, s);
    var h := new HashContext(hash);
    NothingStreamed(memory);
    for i := 0 to |spans|
      invariant h.hash == hash
      invariant sound ==> h.fed == Stream(memory, spans[..i]) && forall s :: s in spans[..i] ==> FullyCovered(segs, s)
    {
      var read := ReadSpan(segs, spans[i], memory);
      if read.NotFullyCovered? {
        assert sound ==> !FullyCovered(segs, spans[i]);
        return Uncovered;
      }
      h.Update(read.b);
      assert spans[..i + 1] == spans[..i] + [spans[i]];
      if sound {
        StreamMore(memory, spans[..i], spans[i]);
      }
    }
    assert spans[..|spans|] == spans;
    var digest := h.Final();
    return Reference(digest);
  }

  predicate Bounds(syms: Symbols, first: string, last: string, span: Span) {
    first in syms && last in syms && span == Span(syms[first], syms[last])
  }

  /** The script's symbols are those of the running core. */
  predicate SameSymbols(syms: Symbols, layout: Layout, withPager: bool) {
    && ("__text_init_start" in syms <==> withPager) && ("__rodata_init_start" in syms <==> withPager)
    && Bounds(syms, "__text_start", "__text_end", layout.text)
    && Bounds(syms, "__text_data_start", "__text_data_end", layout.textData)
    && Bounds(syms, "__rodata_start", "__rodata_end", layout.rodata)
    && (withPager ==>
          && Bounds(syms, "__text_init_start", "__text_init_end", layout.textInit)
          && Bounds(syms, "__text_pageable_start", "__text_pageable_end", layout.textPageable)
          && Bounds(syms, "__rodata_init_start", "__rodata_init_end", layout.rodataInit)
          && Bounds(syms, "__rodata_pageable_start", "__rodata_pageable_end", layout.rodataPageable))
  }

  /** For the same core, script and device hash the same bytes. */
  lemma SpansAgree(syms: Symbols, layout: Layout, withPager: bool)
    requires SameSymbols(syms, layout, withPager)
    ensures HasSymbols(syms) && SpansOf(syms) == layout.Spans(withPager)
  {
    var w := Wanted(syms);
    assert w[0] == ("__text_start", "__text_data_start") && w[1] == ("__text_data_end", "__text_end");
    if withPager {
      assert |w| == 7;
      assert w[2] == ("__text_init_start", "__text_init_end");
      assert w[3] == ("__text_pageable_start", "__text_pageable_end");
      assert w[4] == ("__rodata_start", "__rodata_end");
      assert w[5] == ("__rodata_init_start", "__rodata_init_end");
      assert w[6] == ("__rodata_pageable_start", "__rodata_pageable_end");
    } else {
      assert |w| == 3;
      assert w[2] == ("__rodata_start", "__rodata_end");
    }
  }

  /**
    The two measurements, end to end: for the core whose symbols the script reads
    and whose segments load the memory that the device hashes, both get the same
    digest whenever every span is there in full and none of it twice.
   */
  method MeasureBoth(memory: Memory, layout: Layout, withPager: bool, answers: nat -> nat,
                     segs: seq<Segment>, syms: Symbols, hash: Hash)
    returns (device: HashResult, script: Reference)
    requires SameSymbols(syms, layout, withPager) && layout.Ordered(withPager) && Loads(segs, memory)
    requires forall s :: s in layout.Spans(withPager) ==> DisjointIn(segs, s)
    ensures AllReadable(segs, layout.Spans(withPager)) <==> script.Reference?
    ensures device.Digest? <==> FirstError(answers, if withPager then 10 else 6) == TEE_SUCCESS
    ensures device.Digest? && script.Reference? ==> device.digest == script.digest
  {
    SpansAgree(syms, layout, withPager);
    hide Loads, DisjointIn, FullyCovered, SpansOf, Stream, MemoryOf, HasSymbols, FirstError;
    device := GetHashTeeMemory(memory, layout, withPager, SHA256_SIZE, hash, answers);
    script := ReferenceValue(segs, syms, hash, memory);
  }
}
