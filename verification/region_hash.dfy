/**
  hash.c and compute-arot-refval.py: the measurement of the memory regions of a
  trusted application, on the device and offline.
 */
module RegionHash {
  import opened BigEndian
  import opened ByteOrder
  import opened Hashing

  datatype Flag = Readonly | Ephemeral | Permanent | Ldelf | Other(n: nat)

  datatype VmRegion = VmRegion(va: nat, size: nat, flags: set<Flag>)

  /** The bytes at virtual addresses. */
  type Memory = nat -> byte

  predicate IsRegionValid(r: VmRegion) {
    var dontwant := {Ephemeral, Permanent, Ldelf};
    var want := {Readonly};
    want <= r.flags && r.flags * dontwant == {}
  }

  function Content(memory: Memory, r: VmRegion): (c: bytes)
    ensures |c| == r.size
  {
    seq(r.size, i requires 0 <= i => memory(r.va + i))
  }

  function ContentOf(memory: Memory): VmRegion -> bytes {
    r => Content(memory, r)
  }

  // ----- the order of cmp_regions -----

  predicate Sorted(s: seq<bytes>) {
    forall i, j :: 0 <= i < j < |s| ==> CmpContents(s[i], s[j]) <= 0
  }

  /** There is only one sorted arrangement. */
  lemma {:induction false} SortedUnique(s: seq<bytes>, t: seq<bytes>)
    requires Sorted(s) && Sorted(t) && multiset(s) == multiset(t)
    ensures s == t
    decreases |s|
  {
    hide CmpContents;
    assert |s| == |multiset(s)| == |multiset(t)| == |t|;
    if s != [] {
      FirstIsLeast(s, t);
      FirstIsLeast(t, s);
      CmpOrder(s[0], t[0], s[0]);
      assert s == [s[0]] + s[1..] && t == [t[0]] + t[1..];
      CancelElement(multiset(s[1..]), multiset(t[1..]), s[0]);
      SortedUnique(s[1..], t[1..]);
    }
  }

  lemma CancelElement<T>(a: multiset<T>, b: multiset<T>, x: T)
    requires multiset{x} + a == multiset{x} + b
    ensures a == b
  {
    assert a == (multiset{x} + a) - multiset{x};
    assert b == (multiset{x} + b) - multiset{x};
  }

  lemma FirstIsLeast(s: seq<bytes>, t: seq<bytes>)
    requires Sorted(s) && s != [] && t != [] && multiset(s) == multiset(t)
    ensures CmpContents(s[0], t[0]) <= 0
  {
    assert t[0] in multiset(t);
    var i :| 0 <= i < |s| && s[i] == t[0];
    CmpOrder(s[0], s[0], s[0]);
  }

  // ----- sorting by a key -----

  function Insert<T>(key: T -> bytes, x: T, xs: seq<T>): seq<T> {
    if xs == [] || CmpContents(key(x), key(xs[0])) <= 0 then [x] + xs else [xs[0]] + Insert(key, x, xs[1..])
  }

  function Arrange<T>(key: T -> bytes, xs: seq<T>): seq<T> {
    if xs == [] then [] else Insert(key, xs[0], Arrange(key, xs[1..]))
  }

  predicate SortedBy<T>(key: T -> bytes, xs: seq<T>) {
    forall i, j :: 0 <= i < j < |xs| ==> CmpContents(key(xs[i]), key(xs[j])) <= 0
  }

  lemma {:induction false} InsertArranges<T>(key: T -> bytes, x: T, xs: seq<T>)
    requires SortedBy(key, xs)
    ensures SortedBy(key, Insert(key, x, xs)) && multiset(Insert(key, x, xs)) == multiset{x} + multiset(xs)
    decreases |xs|
  {
    hide CmpContents;
    if xs == [] {
      assert Insert(key, x, xs) == [x];
    } else if CmpContents(key(x), key(xs[0])) <= 0 {
      InFront(key, x, xs);
    } else {
      var tail := Insert(key, x, xs[1..]);
      InsertArranges(key, x, xs[1..]);
      assert xs == [xs[0]] + xs[1..];
      CmpOrder(key(xs[0]), key(x), key(x));
      StaysInFront(key, xs, x, tail);
    }
  }

  lemma InFront<T>(key: T -> bytes, x: T, xs: seq<T>)
    requires SortedBy(key, xs) && xs != [] && CmpContents(key(x), key(xs[0])) <= 0
    ensures SortedBy(key, [x] + xs)
  {
    hide CmpContents;
    forall j | 0 <= j < |xs| ensures CmpContents(key(x), key(xs[j])) <= 0 {
      CmpOrder(key(x), key(xs[0]), key(xs[j]));
    }
  }

  lemma StaysInFront<T>(key: T -> bytes, xs: seq<T>, x: T, tail: seq<T>)
    requires SortedBy(key, xs) && xs != [] && SortedBy(key, tail) && multiset(tail) == multiset{x} + multiset(xs[1..])
    requires CmpContents(key(xs[0]), key(x)) <= 0
    ensures SortedBy(key, [xs[0]] + tail)
  {
    hide CmpContents;
    forall j | 0 <= j < |tail| ensures CmpContents(key(xs[0]), key(tail[j])) <= 0 {
      assert tail[j] in multiset(tail);
      if tail[j] != x {
        assert tail[j] in xs[1..];
      }
    }
  }

  lemma ArrangeOne<T>(key: T -> bytes, xs: seq<T>)
    requires xs != []
    ensures Arrange(key, xs) == Insert(key, xs[0], Arrange(key, xs[1..]))
            && multiset(xs) == multiset{xs[0]} + multiset(xs[1..])
  {
    hide Insert;
    assert xs == [xs[0]] + xs[1..];
  }

  lemma {:induction false} ArrangeArranges<T>(key: T -> bytes, xs: seq<T>)
    ensures SortedBy(key, Arrange(key, xs)) && multiset(Arrange(key, xs)) == multiset(xs)
    decreases |xs|
  {
    if xs != [] {
      hide *;
      ArrangeArranges(key, xs[1..]);
      InsertArranges(key, xs[0], Arrange(key, xs[1..]));
      ArrangeOne(key, xs);
    }
  }

  /** qsort: the C library promises a sorted permutation and no more. */
  method Qsort<T(==)>(key: T -> bytes, a: array<T>)
    modifies a
    ensures SortedBy(key, a[..]) && multiset(a[..]) == multiset(old(a[..]))
  {
    hide CmpContents;
    ArrangeArranges(key, a[..]);
    var arranged := Arrange(key, a[..]);
    assert |arranged| == |multiset(arranged)| == |multiset(a[..])| == a.Length;
    forall i | 0 <= i < a.Length {
      a[i] := arranged[i];
    }
    assert a[..] == arranged;
  }

  // ----- the measurement -----

  function ValidRegions(rs: seq<VmRegion>): seq<VmRegion> {
    if rs == [] then []
    else ValidRegions(rs[..|rs| - 1]) + if IsRegionValid(rs[|rs| - 1]) then [rs[|rs| - 1]] else []
  }

  function Keys<T>(key: T -> bytes, xs: seq<T>): (ks: seq<bytes>)
    ensures |ks| == |xs| && forall i :: 0 <= i < |xs| ==> ks[i] == key(xs[i])
  {
    if xs == [] then [] else Keys(key, xs[..|xs| - 1]) + [key(xs[|xs| - 1])]
  }

  lemma Removed<T>(xs: seq<T>, i: nat)
    requires i < |xs|
    ensures multiset(xs) == multiset{xs[i]} + multiset(xs[..i] + xs[i + 1..])
  {
    assert xs == xs[..i] + [xs[i]] + xs[i + 1..];
  }

  lemma KeysRemoved<T>(key: T -> bytes, xs: seq<T>, i: nat, others: seq<T>)
    requires i < |xs| && others == xs[..i] + xs[i + 1..]
    ensures multiset(xs) == multiset{xs[i]} + multiset(others)
    ensures multiset(Keys(key, xs)) == multiset{key(xs[i])} + multiset(Keys(key, others))
  {
    hide Keys;
    var ks := Keys(key, xs);
    Removed(xs, i);
    Removed(ks, i);
    assert ks[..i] + ks[i + 1..] == Keys(key, others);
  }

  lemma {:induction false} KeysOfPermutation<T>(key: T -> bytes, xs: seq<T>, ys: seq<T>)
    requires multiset(xs) == multiset(ys)
    ensures multiset(Keys(key, xs)) == multiset(Keys(key, ys))
    decreases |xs|
  {
    hide *;
    assert |xs| == |multiset(xs)| == |multiset(ys)| == |ys|;
    if xs == [] {
      assert xs == ys;
    } else {
      assert xs[0] in multiset(ys);
      var i :| 0 <= i < |ys| && ys[i] == xs[0];
      var others := ys[..i] + ys[i + 1..];
      KeysRemoved(key, xs, 0, xs[1..]);
      KeysRemoved(key, ys, i, others);
      CancelElement(multiset(xs[1..]), multiset(others), xs[0]);
      KeysOfPermutation(key, xs[1..], others);
    }
  }

  /** The digest of contents fed in sorted order, whichever of the sorted orders it is. */
  ghost predicate Measures(digest: bytes, hash: Hash, contents: multiset<bytes>) {
    forall s: seq<bytes> :: Sorted(s) && multiset(s) == contents ==> digest == hash(Concat(s))
  }

  lemma SortedMeasures<T>(key: T -> bytes, hash: Hash, xs: seq<T>, ys: seq<T>)
    requires SortedBy(key, xs) && multiset(xs) == multiset(ys)
    ensures Measures(hash(Concat(Keys(key, xs))), hash, multiset(Keys(key, ys)))
  {
    hide Keys, CmpContents;
    var sorted := Keys(key, xs);
    KeysOfPermutation(key, xs, ys);
    forall s: seq<bytes> | Sorted(s) && multiset(s) == multiset(sorted) ensures s == sorted {
      SortedUnique(s, sorted);
    }
  }

  /** The loop over the sorted regions, up to the first update that fails. */
  method FeedInOrder<T>(key: T -> bytes, ctx: CryptoHash, a: array<T>) returns (res: nat)
    requires ctx.fed == [] && ctx.calls == 2 && FirstError(ctx.answers, 2) == TEE_SUCCESS
    modifies ctx
    ensures res == FirstError(ctx.answers, a.Length + 2)
    ensures res == TEE_SUCCESS ==> ctx.fed == Concat(Keys(key, a[..])) && ctx.calls == a.Length + 2
  {
    hide Keys;
    for i := 0 to a.Length
      invariant ctx.calls == i + 2 && FirstError(ctx.answers, i + 2) == TEE_SUCCESS
      invariant ctx.fed == Concat(Keys(key, a[..i]))
    {
      OneMoreKey(key, a[..], i);
      res := ctx.Update(key(a[i]));
      if res != TEE_SUCCESS {
        FirstErrorStays(ctx.answers, i + 3, a.Length + 2);
        return;
      }
    }
    assert a[..a.Length] == a[..];
    return TEE_SUCCESS;
  }

  lemma OneMoreKey<T>(key: T -> bytes, xs: seq<T>, i: nat)
    requires i < |xs|
    ensures Concat(Keys(key, xs[..i + 1])) == Concat(Keys(key, xs[..i])) + key(xs[i])
  {
    hide Keys;
    ConcatMore(Keys(key, xs[..i + 1]), i);
    assert Keys(key, xs[..i + 1])[..i] == Keys(key, xs[..i]);
    assert Keys(key, xs[..i + 1])[..i + 1] == Keys(key, xs[..i + 1]);
  }

  /**
    hash_regions: the digest is that of the contents of the valid regions, if all
    calls of the crypto library succeed and there is memory for the pointers.
   */
  method HashRegions(memory: Memory, vmInfo: seq<VmRegion>, hash: Hash, answers: nat -> nat, memoryLeft: bool)
    returns (r: HashResult)
    ensures var n := |ValidRegions(vmInfo)|;
            if FirstError(answers, 2) != 0 then r == Failed(FirstError(answers, 2))
            else if n > 0 && !memoryLeft then r == Failed(0xffff_000c)
            else if FirstError(answers, n + 3) != 0 then r == Failed(FirstError(answers, n + 3))
            else r.Digest?
    ensures r.Digest? ==> Measures(r.digest, hash, multiset(Keys(ContentOf(memory), ValidRegions(vmInfo))))
  {
    hide Keys, Content, CmpContents, Measures, Concat, ValidRegions, FirstError;
    Errors(answers, |ValidRegions(vmInfo)|);
    var ctx := new CryptoHash(hash, answers);
    var res := ctx.AllocCtx();
    if res != TEE_SUCCESS {
      return Failed(res);
    }
    res := ctx.Init();
    if res != TEE_SUCCESS {
      return Failed(res);
    }
    var nregions := CountValid(vmInfo);
    if nregions == 0 {
      var digest;
      res, digest := ctx.Final();
      NoRegions(memory, hash);
      return if res == TEE_SUCCESS then Digest(digest) else Failed(res);
    }
    if !memoryLeft {
      return Failed(TEE_ERROR_OUT_OF_MEMORY);
    }
    r := HashCollected(memory, vmInfo, ctx, nregions);
  }

  lemma Errors(answers: nat -> nat, n: nat)
    ensures FirstError(answers, 1) == answers(0)
    ensures FirstError(answers, 2) == if answers(0) != TEE_SUCCESS then answers(0) else answers(1)
    ensures FirstError(answers, 3) == if FirstError(answers, 2) != TEE_SUCCESS then FirstError(answers, 2)
            else answers(2)
    ensures FirstError(answers, n + 3) ==
              if FirstError(answers, n + 2) != TEE_SUCCESS then FirstError(answers, n + 2) else answers(n + 2)
  {
    assert FirstError(answers, 0) == TEE_SUCCESS;
  }

  /** From the collection of the regions on. */
  method HashCollected(memory: Memory, vmInfo: seq<VmRegion>, ctx: CryptoHash, nregions: nat) returns (r: HashResult)
    requires nregions == |ValidRegions(vmInfo)|
    requires ctx.fed == [] && ctx.calls == 2 && FirstError(ctx.answers, 2) == TEE_SUCCESS
    modifies ctx
    ensures var code := FirstError(ctx.answers, nregions + 3);
            if code == TEE_SUCCESS then r.Digest? else r == Failed(code)
    ensures r.Digest? ==> Measures(r.digest, ctx.hash, multiset(Keys(ContentOf(memory), ValidRegions(vmInfo))))
  {
    hide Keys, Content, CmpContents, Measures, Concat, ValidRegions, FirstError;
    Errors(ctx.answers, nregions);
    var content := ContentOf(memory);
    var regions := new VmRegion[nregions](_ => VmRegion(0, 0, {}));
    CollectValid(vmInfo, regions);
    Qsort(content, regions);
    var res := FeedInOrder(content, ctx, regions);
    if res != TEE_SUCCESS {
      return Failed(res);
    }
    SortedMeasures(content, ctx.hash, regions[..], ValidRegions(vmInfo));
    var digest;
    res, digest := ctx.Final();
    return if res == TEE_SUCCESS then Digest(digest) else Failed(res);
  }

  lemma NoRegions(memory: Memory, hash: Hash)
    ensures Measures(hash([]), hash, multiset(Keys(ContentOf(memory), [])))
  {
    assert Concat([]) == [] && Keys(ContentOf(memory), []) == [];
    SortedMeasures(ContentOf(memory), hash, [], []);
  }

  /** The first walk over the list. */
  method CountValid(vmInfo: seq<VmRegion>) returns (nregions: nat)
    ensures nregions == |ValidRegions(vmInfo)|
  {
    nregions := 0;
    for i := 0 to |vmInfo|
      invariant nregions == |ValidRegions(vmInfo[..i])|
    {
      assert vmInfo[..i + 1][..i] == vmInfo[..i];
      if IsRegionValid(vmInfo[i]) {
        nregions := nregions + 1;
      }
    }
    assert vmInfo[..|vmInfo|] == vmInfo;
  }

  /** The second walk over the list. */
  method CollectValid(vmInfo: seq<VmRegion>, regions: array<VmRegion>)
    requires regions.Length == |ValidRegions(vmInfo)|
    modifies regions
    ensures regions[..] == ValidRegions(vmInfo)
  {
    var n := 0;
    for i := 0 to |vmInfo|
      invariant n == |ValidRegions(vmInfo[..i])| <= regions.Length
      invariant regions[..n] == ValidRegions(vmInfo[..i])
    {
      assert vmInfo[..i + 1][..i] == vmInfo[..i];
      ValidPrefix(vmInfo, i + 1);
      if IsRegionValid(vmInfo[i]) {
        regions[n] := vmInfo[i];
        n := n + 1;
      }
    }
    assert vmInfo[..|vmInfo|] == vmInfo;
  }

  lemma {:induction false} ValidPrefix(rs: seq<VmRegion>, k: nat)
    requires k <= |rs|
    ensures |ValidRegions(rs[..k])| <= |ValidRegions(rs)|
    decreases |rs|
  {
    if k < |rs| {
      ValidPrefix(rs[..|rs| - 1], k);
      assert rs[..|rs| - 1][..k] == rs[..k];
    } else {
      assert rs[..k] == rs;
    }
  }

  function Itself(b: bytes): bytes {
    b
  }

  /** Every multiset of contents has one digest. */
  lemma OneDigest(digest: bytes, digest': bytes, hash: Hash, contents: seq<bytes>)
    requires Measures(digest, hash, multiset(contents)) && Measures(digest', hash, multiset(contents))
    ensures digest == digest'
  {
    ArrangeArranges(Itself, contents);
    assert Sorted(Arrange(Itself, contents));
  }
}
