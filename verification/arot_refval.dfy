/**
  compute-arot-refval.py: the reference value of a trusted application, from its
  ELF file.
 */
module ArotRefval {
  import opened BigEndian
  import opened ByteOrder
  import opened Hashing
  import opened RegionHash

  const PAGE: nat := 4096

  /** A program header. */
  datatype Segment = Segment(isLoad: bool, writable: bool, offset: nat, filesz: nat, memsz: nat)

  /** Adding align - 1 and masking off the low bits. */
  function RoundUp(n: nat): nat {
    (n + PAGE - 1) / PAGE * PAGE
  }

  lemma RoundUpIsLeast(n: nat, m: nat)
    ensures RoundUp(n) % PAGE == 0 && n <= RoundUp(n) < n + PAGE
    ensures m % PAGE == 0 && n <= m ==> RoundUp(n) <= m
  {
  }

  /** A slice of a bytes object, clipped to what is there. */
  function Slice(data: bytes, from: nat, to: nat): bytes {
    var hi := if to < |data| then to else |data|;
    if from <= hi then data[from..hi] else []
  }

  function Ljust(b: bytes, width: nat): (r: bytes)
    ensures |r| == if |b| < width then width else |b|
    ensures b <= r && forall i :: |b| <= i < |r| ==> r[i] == 0
  {
    if |b| < width then b + seq(width - |b|, _ => 0) else b
  }

  predicate IsReadOnlyLoad(s: Segment) {
    s.isLoad && !s.writable
  }

  /** What ldelf maps for a segment: file content, then zeroes to the end of the last page. */
  function Mapped(data: bytes, s: Segment): bytes {
    Ljust(Slice(data, s.offset, s.offset + s.filesz), RoundUp(s.memsz))
  }

  /** Byte by byte: the file's bytes, and zeroes behind them. */
  lemma MappedByte(data: bytes, s: Segment, i: nat)
    requires s.offset + s.filesz <= |data| && s.filesz <= s.memsz
    ensures |Mapped(data, s)| == RoundUp(s.memsz)
    ensures i < RoundUp(s.memsz) ==> Mapped(data, s)[i] == if i < s.filesz then data[s.offset + i] else 0
  {
    RoundUpIsLeast(s.memsz, 0);
  }

  /** The regions of the script, unsorted: the header page and the read-only segments. */
  function Regions(data: bytes, segments: seq<Segment>): seq<bytes> {
    if segments == [] then [Ljust(Slice(data, 0, PAGE), PAGE)]
    else
      var last := segments[|segments| - 1];
      Regions(data, segments[..|segments| - 1]) + if IsReadOnlyLoad(last) then [Mapped(data, last)] else []
  }

  /** Whole pages, when no segment has more in the file than in memory. */
  lemma {:induction false} RegionsAreWholePages(data: bytes, segments: seq<Segment>)
    requires forall s :: s in segments ==> s.filesz <= s.memsz
    ensures forall r :: r in Regions(data, segments) ==> |r| % PAGE == 0
  {
    if segments != [] {
      var last := segments[|segments| - 1];
      RegionsAreWholePages(data, segments[..|segments| - 1]);
      RoundUpIsLeast(last.memsz, 0);
    }
  }

  // ----- the order of the sort key (len(r), r) -----

  predicate BytesAtMost(a: bytes, b: bytes) {
    a == [] || (b != [] && (a[0] < b[0] || (a[0] == b[0] && BytesAtMost(a[1..], b[1..]))))
  }

  predicate TupleAtMost(a: bytes, b: bytes) {
    |a| < |b| || (|a| == |b| && BytesAtMost(a, b))
  }

  lemma {:induction false} BytesAtMostIsMemcmp(a: bytes, b: bytes)
    requires |a| == |b|
    ensures BytesAtMost(a, b) <==> Memcmp(a, b) <= 0
  {
    if a != [] && a[0] == b[0] {
      BytesAtMostIsMemcmp(a[1..], b[1..]);
    }
  }

  /** The key of the script and cmp_regions of the device order contents alike. */
  lemma OrdersAgree(a: bytes, b: bytes)
    ensures TupleAtMost(a, b) <==> CmpContents(a, b) <= 0
  {
    if |a| == |b| {
      BytesAtMostIsMemcmp(a, b);
    }
  }

  predicate InKeyOrder(regions: seq<bytes>) {
    forall i, j :: 0 <= i < j < |regions| ==> TupleAtMost(regions[i], regions[j])
  }

  lemma KeyOrderIsSorted(regions: seq<bytes>)
    ensures InKeyOrder(regions) <==> Sorted(regions)
  {
    hide TupleAtMost, CmpContents;
    forall i, j | 0 <= i < j < |regions|
      ensures TupleAtMost(regions[i], regions[j]) <==> CmpContents(regions[i], regions[j]) <= 0
    {
      OrdersAgree(regions[i], regions[j]);
    }
  }

  /** list.sort with that key. */
  method SortRegions(regions: seq<bytes>) returns (sorted: seq<bytes>)
    ensures InKeyOrder(sorted) && multiset(sorted) == multiset(regions)
  {
    hide CmpContents;
    sorted := Arrange(Itself, regions);
    ArrangeArranges(Itself, regions);
    KeyOrderIsSorted(sorted);
  }

  method ReferenceValue(data: bytes, segments: seq<Segment>, hash: Hash) returns (digest: bytes)
    ensures Measures(digest, hash, multiset(Regions(data, segments)))
  {
    hide CmpContents, TupleAtMost, Mapped;
    var regions := [Ljust(Slice(data, 0, PAGE), PAGE)];
    for i := 0 to |segments|
      invariant regions == Regions(data, segments[..i])
    {
      assert segments[..i + 1][..i] == segments[..i];
      if segments[i].isLoad && !segments[i].writable {
        regions := regions + [Mapped(data, segments[i])];
      }
    }
    assert segments[..|segments|] == segments;
    regions := SortRegions(regions);
    var h := new HashContext(hash);
    for i := 0 to |regions|
      invariant h.hash == hash && h.fed == Concat(regions[..i])
    {
      ConcatMore(regions, i);
      h.Update(regions[i]);
    }
    assert regions[..|regions|] == regions;
    digest := h.Final();
    forall s: seq<bytes> | Sorted(s) && multiset(s) == multiset(Regions(data, segments)) ensures s == regions {
      KeyOrderIsSorted(regions);
      SortedUnique(s, regions);
    }
  }

  // ----- what is mapped when the trusted application runs -----

  /** A mapping of the application itself, read-only or not; what other flags there are is of no account. */
  predicate MappedAs(r: VmRegion, readOnly: bool) {
    && (Readonly in r.flags <==> readOnly)
    && Ephemeral !in r.flags && Permanent !in r.flags && Ldelf !in r.flags
  }

  /** Whole pages that hold n bytes of the file, and zeroes behind. */
  predicate Holds(memory: Memory, r: VmRegion, data: bytes, from: nat, n: nat, memsz: nat)
    requires from + n <= |data| && n <= memsz
  {
    && r.size % 4096 == 0 && memsz <= r.size < memsz + 4096
    && forall i :: 0 <= i < r.size ==> Content(memory, r)[i] == if i < n then data[from + i] else 0
  }

  /** A file as the ELF format has it: segments lie in it, and are no longer there than in memory. */
  predicate Loadable(data: bytes, segments: seq<Segment>) {
    forall s :: s in segments && s.isLoad ==> s.offset + s.filesz <= |data| && s.filesz <= s.memsz
  }

  /** The first page of the file, read-only, then a region for every segment to load, writable if that is. */
  predicate MapsFile(memory: Memory, data: bytes, segments: seq<Segment>, rs: seq<VmRegion>)
    requires Loadable(data, segments)
    decreases segments
  {
    if segments == [] then
      |rs| == 1 && MappedAs(rs[0], true) && Holds(memory, rs[0], data, 0, if |data| < 4096 then |data| else 4096, 4096)
    else
      var front, last := segments[..|segments| - 1], segments[|segments| - 1];
      if !last.isLoad then MapsFile(memory, data, front, rs)
      else
        && rs != [] && MapsFile(memory, data, front, rs[..|rs| - 1])
        && MappedAs(rs[|rs| - 1], !last.writable)
        && Holds(memory, rs[|rs| - 1], data, last.offset, last.filesz, last.memsz)
  }

  /** Mappings of the kernel, of the loader, temporary ones, and whatever is writable. */
  predicate Other(r: VmRegion) {
    Ephemeral in r.flags || Permanent in r.flags || Ldelf in r.flags || Readonly !in r.flags
  }

  /** All that is mapped, in any order: the regions of the file and others. */
  predicate Runs(memory: Memory, data: bytes, segments: seq<Segment>, rs: seq<VmRegion>, others: seq<VmRegion>,
                 vmInfo: seq<VmRegion>)
    requires Loadable(data, segments)
  {
    && MapsFile(memory, data, segments, rs) && (forall r :: r in others ==> Other(r))
    && multiset(vmInfo) == multiset(rs) + multiset(others)
  }

  lemma HeaderContent(memory: Memory, r: VmRegion, data: bytes)
    requires Holds(memory, r, data, 0, if |data| < 4096 then |data| else 4096, 4096)
    ensures Content(memory, r) == Ljust(Slice(data, 0, PAGE), PAGE)
  {
    var header := Ljust(Slice(data, 0, PAGE), PAGE);
    forall i | 0 <= i < r.size ensures Content(memory, r)[i] == header[i] {
    }
  }

  lemma SegmentContent(memory: Memory, r: VmRegion, data: bytes, s: Segment)
    requires s.offset + s.filesz <= |data| && s.filesz <= s.memsz
    requires Holds(memory, r, data, s.offset, s.filesz, s.memsz)
    ensures Content(memory, r) == Mapped(data, s)
  {
    RoundUpIsLeast(s.memsz, r.size);
    forall i | 0 <= i < r.size ensures Content(memory, r)[i] == Mapped(data, s)[i] {
      MappedByte(data, s, i);
    }
    MappedByte(data, s, 0);
  }

  /** Of what is mapped for the file the device takes what the script takes, and in the order of the file. */
  lemma {:induction false} FileIsMeasured(memory: Memory, data: bytes, segments: seq<Segment>, rs: seq<VmRegion>)
    requires Loadable(data, segments) && MapsFile(memory, data, segments, rs)
    ensures Keys(ContentOf(memory), ValidRegions(rs)) == Regions(data, segments)
    decreases segments
  {
    if segments == [] {
      HeaderContent(memory, rs[0], data);
      OneValid(memory, rs[0]);
      assert rs == [rs[0]];
    } else {
      var front, last := segments[..|segments| - 1], segments[|segments| - 1];
      if !last.isLoad {
        FileIsMeasured(memory, data, front, rs);
      } else {
        var r := rs[|rs| - 1];
        FileIsMeasured(memory, data, front, rs[..|rs| - 1]);
        SegmentContent(memory, r, data, last);
        OneMoreRegion(memory, rs);
      }
    }
  }

  lemma OneValid(memory: Memory, r: VmRegion)
    ensures Keys(ContentOf(memory), ValidRegions([r])) == if IsRegionValid(r) then [Content(memory, r)] else []
  {
    assert [r][..0] == [];
  }

  lemma OneMoreRegion(memory: Memory, rs: seq<VmRegion>)
    requires rs != []
    ensures var front, r := rs[..|rs| - 1], rs[|rs| - 1];
            Keys(ContentOf(memory), ValidRegions(rs))
            == Keys(ContentOf(memory), ValidRegions(front)) + if IsRegionValid(r) then [Content(memory, r)] else []
  {
    hide Content;
  }

  lemma OtherIsNotValid(r: VmRegion)
    ensures Other(r) <==> !IsRegionValid(r)
  {
    var dontwant := {Ephemeral, Permanent, Ldelf};
    assert forall f :: f in r.flags * dontwant <==> f in r.flags && (f == Ephemeral || f == Permanent || f == Ldelf);
    if Ephemeral in r.flags {
      assert Ephemeral in r.flags * dontwant;
    } else if Permanent in r.flags {
      assert Permanent in r.flags * dontwant;
    } else if Ldelf in r.flags {
      assert Ldelf in r.flags * dontwant;
    }
  }

  lemma {:induction false} OthersAreNot(others: seq<VmRegion>)
    requires forall r :: r in others ==> Other(r)
    ensures ValidRegions(others) == []
  {
    if others != [] {
      assert others[|others| - 1] in others;
      OtherIsNotValid(others[|others| - 1]);
      OthersAreNot(others[..|others| - 1]);
    }
  }

  lemma {:induction false} ValidConcat(a: seq<VmRegion>, b: seq<VmRegion>)
    ensures ValidRegions(a + b) == ValidRegions(a) + ValidRegions(b)
    decreases |b|
  {
    hide IsRegionValid;
    if b == [] {
      assert a + b == a;
    } else {
      ValidConcat(a, b[..|b| - 1]);
      assert (a + b)[..|a + b| - 1] == a + b[..|b| - 1];
    }
  }

  lemma {:induction false} ValidCount(rs: seq<VmRegion>, r: VmRegion)
    ensures multiset(ValidRegions(rs))[r] == if IsRegionValid(r) then multiset(rs)[r] else 0
  {
    hide IsRegionValid;
    if rs != [] {
      var front, last := rs[..|rs| - 1], rs[|rs| - 1];
      ValidCount(front, r);
      assert rs == front + [last];
    }
  }

  lemma ValidOfPermutation(a: seq<VmRegion>, b: seq<VmRegion>)
    requires multiset(a) == multiset(b)
    ensures multiset(ValidRegions(a)) == multiset(ValidRegions(b))
  {
    hide IsRegionValid, ValidRegions;
    forall r ensures multiset(ValidRegions(a))[r] == multiset(ValidRegions(b))[r] {
      ValidCount(a, r);
      ValidCount(b, r);
    }
  }

  /** Whatever else is mapped, in whatever order and at whatever addresses, the same contents are measured. */
  lemma SameContents(memory: Memory, data: bytes, segments: seq<Segment>, rs: seq<VmRegion>, others: seq<VmRegion>,
                     vmInfo: seq<VmRegion>)
    requires Loadable(data, segments) && Runs(memory, data, segments, rs, others, vmInfo)
    ensures multiset(Keys(ContentOf(memory), ValidRegions(vmInfo))) == multiset(Regions(data, segments))
  {
    hide ValidRegions, Keys, MapsFile, Regions, Other;
    FileIsMeasured(memory, data, segments, rs);
    OthersAreNot(others);
    ValidConcat(rs, others);
    assert ValidRegions(rs) + [] == ValidRegions(rs);
    ValidOfPermutation(vmInfo, rs + others);
    KeysOfPermutation(ContentOf(memory), ValidRegions(vmInfo), ValidRegions(rs + others));
  }

  /** Device and script agree whenever the same contents are mapped, in any order, at any addresses. */
  lemma MeasurementsAgree(device: bytes, offline: bytes, hash: Hash, memory: Memory, vmInfo: seq<VmRegion>, data: bytes,
                          segments: seq<Segment>)
    requires Measures(device, hash, multiset(Keys(ContentOf(memory), ValidRegions(vmInfo))))
    requires Measures(offline, hash, multiset(Regions(data, segments)))
    requires multiset(Keys(ContentOf(memory), ValidRegions(vmInfo))) == multiset(Regions(data, segments))
    ensures device == offline
  {
    OneDigest(device, offline, hash, Regions(data, segments));
  }

  /** The two measurements of one application, on the device that runs it and from its file. */
  method MeasureBoth(memory: Memory, vmInfo: seq<VmRegion>, answers: nat -> nat, memoryLeft: bool,
                     data: bytes, segments: seq<Segment>, hash: Hash, ghost rs: seq<VmRegion>,
                       ghost others: seq<VmRegion>)
    returns (device: HashResult, script: bytes)
    requires Loadable(data, segments) && Runs(memory, data, segments, rs, others, vmInfo)
    ensures device.Digest? ==> device.digest == script
    ensures device.Digest?
       <==> FirstError(answers, |ValidRegions(vmInfo)| + 3) == 0 && (memoryLeft || ValidRegions(vmInfo) == [])
  {
    hide Runs, ValidRegions, Keys, Regions, Measures, FirstError, CmpContents;
    SameContents(memory, data, segments, rs, others, vmInfo);
    device := HashRegions(memory, vmInfo, hash, answers, memoryLeft);
    if FirstError(answers, 2) != 0 {
      FirstErrorStays(answers, 2, |ValidRegions(vmInfo)| + 3);
    }
    script := ReferenceValue(data, segments, hash);
    if device.Digest? {
      MeasurementsAgree(device.digest, script, hash, memory, vmInfo, data, segments);
    }
  }
}
