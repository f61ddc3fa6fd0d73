/**
  The functions of UsefulBuf.c that compare, search and copy whole buffers.
 */
module UsefulBufSearch {
  import opened BigEndian
  import opened ByteOrder
  import opened UsefulBuf

  /** The bytes are there; an empty buffer may have a null pointer. */
  predicate Readable(b: UsefulBufC) {
    b.InBounds() && (b.ptr != null || b.len == 0)
  }

  method Compare(a: UsefulBufC, b: UsefulBufC) returns (order: int)
    requires Readable(a) && Readable(b)
    ensures order == CmpContents(a.Value(), b.Value())
    ensures order == 0 <==> a.Value() == b.Value()
  {
    CmpOrder(a.Value(), b.Value(), a.Value());
    CompareSigns(a.Value(), b.Value());
    if a.len < b.len {
      return -1;
    } else if a.len > b.len {
      return 1;
    }
    return Memcmp(a.Value(), b.Value());
  }

  lemma CompareSigns(a: bytes, b: bytes)
    ensures CmpContents(a, b) == 0 <==> a == b
  {
    if |a| == |b| {
      MemcmpOrder(a, b, a);
    }
  }

  /** Whether find stands at this offset. */
  predicate Occurs(search: bytes, find: bytes, pos: nat) {
    pos + |find| <= |search| && search[pos..pos + |find|] == find
  }

  /** The first occurrence, or SIZE_MAX when there is none. */
  method FindBytes(bytesToSearch: UsefulBufC, bytesToFind: UsefulBufC) returns (pos: nat)
    requires Readable(bytesToSearch) && Readable(bytesToFind)
    ensures pos != SIZE_MAX ==> Occurs(bytesToSearch.Value(), bytesToFind.Value(), pos)
    ensures forall i :: 0 <= i < pos ==> !Occurs(bytesToSearch.Value(), bytesToFind.Value(), i)
    ensures pos == SIZE_MAX <==> forall i: nat :: !Occurs(bytesToSearch.Value(), bytesToFind.Value(), i)
  {
    hide CmpContents;
    ghost var search, find := bytesToSearch.Value(), bytesToFind.Value();
    if bytesToSearch.len < bytesToFind.len {
      return SIZE_MAX;
    }
    pos := 0;
    while pos <= bytesToSearch.len - bytesToFind.len
      invariant 0 <= pos <= bytesToSearch.len - bytesToFind.len + 1
      invariant forall i :: 0 <= i < pos ==> !Occurs(search, find, i)
    {
      var found := Matches(bytesToSearch, bytesToFind, pos);
      if found {
        assert find == [] ==> Occurs(search, find, 0);
        return;
      }
      pos := pos + 1;
    }
    return SIZE_MAX;
  }

  /** One comparison of the search. */
  method Matches(bytesToSearch: UsefulBufC, bytesToFind: UsefulBufC, pos: nat) returns (found: bool)
    requires Readable(bytesToSearch) && Readable(bytesToFind) && pos + bytesToFind.len <= bytesToSearch.len
    ensures found <==> Occurs(bytesToSearch.Value(), bytesToFind.Value(), pos)
  {
    hide CmpContents;
    var here := UsefulBufC(bytesToSearch.ptr, bytesToSearch.off + pos, bytesToFind.len);
    if bytesToSearch.ptr != null {
      PartOfValue(bytesToSearch, pos, bytesToFind.len);
    }
    assert here.Value() == bytesToSearch.Value()[pos..pos + bytesToFind.len];
    var order := Compare(here, bytesToFind);
    return order == 0;
  }

  /** What is copied and where it goes do not overlap, though they may lie in one array. */
  predicate Apart(dest: UsefulBufC, offset: nat, src: UsefulBufC) {
    dest.ptr == src.ptr ==> src.off + src.len <= dest.off + offset || dest.off + offset + src.len <= src.off
  }

  /** memcpy. */
  method CopyTo(destination: array<byte>, at: nat, src: UsefulBufC)
    requires src.InBounds() && src.ptr != null && at + src.len <= destination.Length
    requires src.ptr == destination ==> src.off + src.len <= at || at + src.len <= src.off
    modifies destination
    ensures destination[..] == Overwritten(old(destination[..]), old(src.Value()), at)
  {
    forall i | 0 <= i < src.len {
      destination[at + i] := src.ptr[src.off + i];
    }
  }

  /** Copies into a buffer at an offset, if it fits; the check does not overflow. */
  method CopyOffset(dest: UsefulBufC, offset: nat, src: UsefulBufC) returns (r: UsefulBufC)
    requires Readable(dest) && Readable(src) && (offset + src.len <= dest.len ==> Apart(dest, offset, src))
    modifies if dest.ptr == null then {} else {dest.ptr}
    ensures if offset + src.len > dest.len then r == NULL_USEFUL_BUF && dest.Value() == old(dest.Value())
            else r == UsefulBufC(dest.ptr, dest.off, offset + src.len) && r.InBounds()
    ensures offset + src.len <= dest.len ==> dest.Value() == Overwritten(old(dest.Value()), old(src.Value()), offset)
  {
    if offset > dest.len || src.len > dest.len - offset {
      return NULL_USEFUL_BUF;
    }
    if src.ptr != null && dest.ptr != null {
      OverwrittenPart(dest.ptr[..], src.Value(), offset, dest.off, dest.len);
      ValueOf(dest);
      CopyTo(dest.ptr, dest.off + offset, src);
      ValueOf(dest);
      hide Overwritten;
    } else {
      assert dest.Value() == Overwritten(dest.Value(), src.Value(), offset);
    }
    return UsefulBufC(dest.ptr, dest.off, src.len + offset);
  }

  lemma ValueOf(b: UsefulBufC)
    requires b.InBounds() && b.ptr != null
    ensures b.Value() == b.ptr[..][b.off..b.off + b.len]
  {
  }
}
