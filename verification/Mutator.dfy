/**
 Document mutators (`bson_mut`, `_bson_splice_region` and `bson_mut_capacity` in
 `include/bson/mut.h`): a chain of nested mutators that hands every resize to the
 root, which may move the whole document, and then rebases itself and rewrites
 its length headers on the way back.
 */
module Mutator {
  import opened Bytes
  import opened Frames
  import opened Storage
  import opened Values
  import Int = Integer

  class Mut {
    /** `_bson_document_data`. */
    var data: Ptr
    /** `_parent_mut`; null for a root mutator. */
    const parent: Mut?
    /** `_doc`; null for a child mutator. */
    const doc: Doc?
    /** `_offset_within_parent_data`: where the element starts in the parent, or 0 for a root. */
    const offset: uint32

    /** `bson_mutate`. */
    constructor Root(doc: Doc)
      ensures this.doc == doc && parent == null && offset == 0 && data == Ptr(doc.buf, COOKIE)
    {
      this.data := Ptr(doc.buf, COOKIE);
      this.parent := null;
      this.doc := doc;
      this.offset := 0;
    }

    constructor Child(parent: Mut, offset: uint32, data: Ptr)
      ensures this.parent == parent && doc == null && this.offset == offset && this.data == data
    {
      this.data := data;
      this.parent := parent;
      this.doc := null;
      this.offset := offset;
    }
  }

  // ----- chains of mutators

  /** `chain` runs from the root mutator of `d` down to its last element. */
  ghost predicate Linked(chain: seq<Mut>, d: Doc) {
    && |chain| > 0 && chain[0].offset == 0 && chain[0].doc == d
    && forall i :: 0 < i < |chain| ==> chain[i].offset > 0 && chain[i].parent == chain[i - 1]
  }

  lemma {:induction false} LinkedDistinct(chain: seq<Mut>, d: Doc, i: nat, j: nat)
    requires Linked(chain, d) && i < j < |chain|
    ensures chain[i] != chain[j]
  {
    if i > 0 {
      LinkedDistinct(chain, d, i - 1, j - 1);
    }
  }

  /** Every mutator points at its document's header in the allocation `buf`. */
  ghost predicate Placed(chain: seq<Mut>, buf: array<byte>, offs: seq<nat>)
    reads chain
  {
    |chain| == |offs| && forall i :: 0 <= i < |chain| ==> chain[i].data == Ptr(buf, COOKIE + offs[i])
  }

  /**
   A chain in sync with a document: `chain[i]` is at the i-th of the documents
   nested by the frames `fs` around `body`.
   */
  ghost predicate InSync(chain: seq<Mut>, d: Doc, fs: seq<Frame>, body: seq<byte>)
    reads chain, d, d.buf, d.empty
  {
    && Linked(chain, d) && |chain| == |fs| + 1 && Proper(fs)
    && d.Valid() && d.Contents() == Wrap(fs, body)
    && Placed(chain, d.buf, Offsets(fs, 0))
  }

  // ----- size arithmetic

  /** The new size of a document after deleting and inserting, in checked arithmetic. */
  function NewSize(size: Int.int64, nDelete: Int.size_t, nInsert: Int.size_t): Option<int> {
    var diff := Int.CastInt32(Int.Sub(Int.FromU64(nInsert), Int.FromU64(nDelete)));
    var total := Int.CastNonNegativeInt32(Int.Add(Int.FromI64(size), Int.FromI64(diff.i64), false));
    if diff.flags == {} && total.flags == {} then Some(total.i64) else None
  }

  /** The checked size is present exactly when the exact one fits, and is the exact one. */
  lemma NewSizeExact(size: Int.int64, nDelete: Int.size_t, nInsert: Int.size_t)
    requires 0 <= size <= INT32_MAX
    ensures NewSize(size, nDelete, nInsert) ==
      if nInsert <= Int.INT64_MAX && nDelete <= Int.INT64_MAX
        && INT32_MIN <= nInsert as int - nDelete as int <= INT32_MAX
        && 0 <= size as int + nInsert as int - nDelete as int <= INT32_MAX
      then Some(size as int + nInsert as int - nDelete as int) else None
  {
  }

  // ----- splicing at the root

  /** Slices of an array that is overwritten inside the slice. */
  lemma PatchWithin(a: seq<byte>, lo: nat, hi: nat, at: nat, w: seq<byte>)
    requires lo <= at && at + |w| <= hi <= |a|
    ensures Patch(a, at, w)[lo..hi] == Patch(a[lo..hi], at - lo, w)
    ensures Patch(a, at, w)[..lo] == a[..lo]
  {
    var r, s := Patch(a, at, w)[lo..hi], Patch(a[lo..hi], at - lo, w);
    forall k | 0 <= k < hi - lo
      ensures r[k] == s[k]
    {
      assert Patch(a, at, w)[lo + k] == if lo + k < at || at + |w| <= lo + k then a[lo + k] else w[lo + k - at];
    }
  }

  /** Shifting the tail and filling the gap, in one buffer. */
  method ShiftAndFill(
      buf: array<byte>, base: nat, size: nat, pos: nat, nDelete: nat, nInsert: nat, insertFrom: Option<seq<byte>>)
    requires base + size <= buf.Length && pos + nDelete <= size && base + size - nDelete + nInsert <= buf.Length
    requires insertFrom.Some? ==> |insertFrom.value| == nInsert
    modifies buf
    ensures buf[..][..base] == old(buf[..])[..base]
    ensures buf[..][base..base + size - nDelete + nInsert]
         == Splice(old(buf[..])[base..base + size], pos, nDelete, Filling(insertFrom, nInsert))
  {
    hide Patch, Splice, Filling;
    ghost var before := buf[..];
    var remain := size - pos - nDelete;
    var end := Memmove(buf, base + pos + nInsert, base + pos + nDelete, remain);
    ghost var moved := buf[..];
    Fill(buf, base + pos, nInsert, insertFrom);
    assert moved == Patch(before, base + pos + nInsert, before[base + pos + nDelete..base + size]);
    ShiftedBytes(before, moved, buf[..], base, size, pos, nDelete, Filling(insertFrom, nInsert));
  }

  method Fill(buf: array<byte>, at: nat, nInsert: nat, insertFrom: Option<seq<byte>>)
    requires at + nInsert <= buf.Length && (insertFrom.Some? ==> |insertFrom.value| == nInsert)
    modifies buf
    ensures buf[..] == Patch(old(buf[..]), at, Filling(insertFrom, nInsert))
  {
    var end: nat;
    match insertFrom {
      case Some(bytes) => end := Memcpy(buf, at, bytes);
      case None => end := Memset(buf, at, 'X' as int, nInsert);
    }
  }

  /** What fills the inserted region: the source bytes, or a fill byte. */
  function Filling(insertFrom: Option<seq<byte>>, nInsert: nat): (s: seq<byte>)
    requires insertFrom.Some? ==> |insertFrom.value| == nInsert
    ensures |s| == nInsert
  {
    match insertFrom
    case Some(bytes) => bytes
    case None => Repeat('X' as int, nInsert)
  }

  lemma ShiftedBytes(
      a: seq<byte>, moved: seq<byte>, c: seq<byte>, base: nat, size: nat, pos: nat, nDelete: nat, ins: seq<byte>)
    requires base + size <= |a| && pos + nDelete <= size && base + size - nDelete + |ins| <= |a|
    requires moved == Patch(a, base + pos + |ins|, a[base + pos + nDelete..base + size])
    requires c == Patch(moved, base + pos, ins)
    ensures c[..base] == a[..base]
    ensures c[base..base + size - nDelete + |ins|] == Splice(a[base..base + size], pos, nDelete, ins)
  {
    var r, s := c[base..base + size - nDelete + |ins|], Splice(a[base..base + size], pos, nDelete, ins);
    forall k | 0 <= k < |s|
      ensures r[k] == s[k]
    {
      if k < pos + |ins| {
        assert c[base + k] == if k < pos then a[base + k] else ins[k - pos];
      } else {
        assert c[base + k] == moved[base + k] == a[base + k - |ins| + nDelete];
      }
    }
  }

  /** The part of `_bson_splice_region` that only a root mutator performs. */
  method SpliceRoot(
      mut: Mut, d: Doc, position: Ptr, nDelete: Int.size_t, nInsert: Int.size_t, insertFrom: Option<seq<byte>>,
      newSize: int)
    returns (r: Option<Ptr>)
    requires d.Valid() && mut.doc == d && mut.data == Ptr(d.buf, COOKIE)
    requires position.buf == d.buf && COOKIE + 4 <= position.at < COOKIE + d.Size()
    requires 0 <= newSize <= INT32_MAX && newSize == d.Size() as int + nInsert as int - nDelete as int
    requires insertFrom.Some? ==> |insertFrom.value| == nInsert
    modifies mut, d`buf, d.buf
    ensures d.buf == old(d.buf) || (fresh(d.buf) && old(d.buf)[..] == old(d.buf[..]))
    ensures r.None? ==> d.buf == old(d.buf) && d.buf[..] == old(d.buf[..]) && mut.data == old(mut.data)
    ensures r.Some? ==>
      && r.value == Ptr(d.buf, position.at) && mut.data == Ptr(d.buf, COOKIE)
      && position.at - COOKIE + nDelete <= |old(d.Contents())|
      && COOKIE + newSize <= d.buf.Length && 9 <= d.buf.Length <= INT32_MAX
      && d.buf[..][..COOKIE] == U32le(d.buf.Length - COOKIE)
      && d.buf[..][COOKIE..COOKIE + newSize]
      == Splice(old(d.Contents()), position.at - COOKIE, nDelete, Filling(insertFrom, nInsert))
    ensures position.at - COOKIE + nDelete > |old(d.Contents())| ==> r.None?
    ensures position.at - COOKIE + nDelete <= |old(d.Contents())| && newSize <= old(d.Capacity()) ==>
      r.Some? && d.buf == old(d.buf)
  {
    hide Splice, ReadU32le, U32le, Filling;
    var posOffset := position.at - mut.data.at;
    var size := d.Size();
    ghost var contents := d.Contents();
    if nDelete > size - posOffset {
      return None;
    }
    if newSize > d.Capacity() {
      // Grow with some room to spare.
      var capacity := Int.CastNonNegativeInt32(Int.Add(Int.FromI64(newSize), Int.FromI64(512), false));
      if capacity.flags != {} {
        return None;
      }
      var got := d.Reserve(capacity.i64);
      if got < 0 {
        return None;
      }
      mut.data := Ptr(d.buf, COOKIE);
    }
    CookieBytes(d);
    assert d.Size() == size && d.buf[..][COOKIE..COOKIE + size] == contents;
    ShiftAndFill(d.buf, COOKIE, size, posOffset, nDelete, nInsert, insertFrom);
    r := Some(Ptr(d.buf, COOKIE + posOffset));
  }

  lemma CookieBytes(d: Doc)
    requires d.Valid()
    ensures d.buf[..][..COOKIE] == U32le(d.buf.Length - COOKIE)
  {
    WriteReadU32(d.buf[..]);
  }

  // ----- splicing anywhere

  function Bump(sizes: seq<nat>, delta: int): (r: seq<int>)
    ensures |r| == |sizes|
    ensures forall i :: 0 <= i < |r| ==> r[i] == sizes[i] + delta
  {
    seq(|sizes|, i requires 0 <= i < |sizes| => sizes[i] + delta)
  }

  /** A chain whose mutators point at the documents of `d` with the given offsets and sizes. */
  ghost predicate Aligned(chain: seq<Mut>, d: Doc, offs: seq<nat>, sizes: seq<nat>)
    reads chain, d, d.buf, d.empty
  {
    && Linked(chain, d) && d.Valid() && Placed(chain, d.buf, offs)
    && HeadersAre(d.Contents(), offs, sizes)
  }

  lemma AlignedParent(chain: seq<Mut>, d: Doc, offs: seq<nat>, sizes: seq<nat>)
    requires Aligned(chain, d, offs, sizes) && |chain| > 1
    ensures |offs| == |sizes| == |chain|
    ensures var n := |chain| - 1;
      && Aligned(chain[..n], d, offs[..n], sizes[..n])
      && offs[n - 1] + 6 <= offs[n] && offs[n] + sizes[n] < offs[n - 1] + sizes[n - 1]
      && chain[n].parent == chain[n - 1]
      && chain[n].data == Ptr(d.buf, COOKIE + offs[n]) && chain[n - 1].data == Ptr(d.buf, COOKIE + offs[n - 1])
  {
    hide ReadU32le;
    var n := |chain| - 1;
    var b := d.Contents();
    assert offs[n] + sizes[n] < offs[n - 1] + sizes[n - 1];
    HeadersPrefix(b, offs, sizes, n);
    assert Linked(chain[..n], d) && Placed(chain[..n], d.buf, offs[..n]);
  }

  lemma HeadersPrefix(b: seq<byte>, offs: seq<nat>, sizes: seq<nat>, n: nat)
    requires HeadersAre(b, offs, sizes) && 0 < n <= |offs|
    ensures HeadersAre(b, offs[..n], sizes[..n])
  {
    hide ReadU32le;
    var offs', sizes' := offs[..n], sizes[..n];
    forall i | 0 <= i < n
      ensures offs'[i] + 4 <= |b| && ReadU32le(b[offs'[i]..]) == sizes'[i]
      ensures 5 <= sizes'[i] && offs'[0] <= offs'[i] && offs'[i] + sizes'[i] <= offs'[0] + sizes'[0]
      ensures i > 0 ==> offs'[i - 1] + 6 <= offs'[i] && offs'[i] + sizes'[i] < offs'[i - 1] + sizes'[i - 1]
    {
      assert offs'[i] == offs[i];
    }
  }

  lemma AlignedLinked(chain: seq<Mut>, d: Doc, offs: seq<nat>, sizes: seq<nat>)
    requires Aligned(chain, d, offs, sizes)
    ensures d.Valid() && Linked(chain, d) && Placed(chain, d.buf, offs)
    ensures forall i :: 0 <= i < |chain| ==> offs[i] + 4 <= |d.Contents()|
    ensures COOKIE + |d.Contents()| <= d.buf.Length <= INT32_MAX
  {
  }

  lemma LastDistinct(chain: seq<Mut>, d: Doc)
    requires Linked(chain, d)
    ensures chain[|chain| - 1] !in chain[..|chain| - 1]
  {
    forall i | 0 <= i < |chain| - 1
      ensures chain[i] != chain[|chain| - 1]
    {
      LinkedDistinct(chain, d, i, |chain| - 1);
    }
  }

  /** The size header a mutator of an aligned chain reads. */
  lemma HeaderRead(chain: seq<Mut>, d: Doc, offs: seq<nat>, sizes: seq<nat>, i: nat)
    requires Aligned(chain, d, offs, sizes) && i < |chain|
    ensures |offs| == |sizes| == |chain|
    ensures COOKIE + offs[i] + 4 <= d.buf.Length && sizes[i] <= INT32_MAX
    ensures ReadU32le(d.buf[..][COOKIE + offs[i]..]) == sizes[i]
    ensures 5 <= sizes[i] && offs[i] + sizes[i] <= |d.Contents()|
  {
    var off, b := offs[i], d.Contents();
    assert off + 4 <= |b| && ReadU32le(b[off..]) == sizes[i];
    assert forall k :: 0 <= k < 4 ==> d.buf[..][COOKIE + off..][k] == b[off..][k];
  }

  /**
   `_bson_splice_region`. On failure nothing changed: no byte, no header and no
   mutator pointer. On success the bytes were replaced at every level, the length
   headers of the document and of all its ancestors follow the size difference,
   and every pointer is valid in the (possibly new) allocation.
   */
  method SpliceRegion(
      mut: Mut, position: Ptr, nDelete: Int.size_t, nInsert: Int.size_t, insertFrom: Option<seq<byte>>,
      ghost chain: seq<Mut>, ghost d: Doc, ghost offs: seq<nat>, ghost sizes: seq<nat>)
    returns (r: Option<Ptr>)
    requires Aligned(chain, d, offs, sizes) && mut == chain[|chain| - 1]
    requires position.buf == d.buf
    requires COOKIE + offs[|chain| - 1] + 4 <= position.at < COOKIE + offs[|chain| - 1] + sizes[|chain| - 1]
    requires insertFrom.Some? ==> |insertFrom.value| == nInsert
    modifies chain, d`buf, d.buf
    ensures d.buf == old(d.buf) || (fresh(d.buf) && old(d.buf)[..] == old(d.buf[..]))
    ensures r.None? ==> d.buf == old(d.buf) && d.buf[..] == old(d.buf[..]) && Placed(chain, d.buf, offs)
    ensures r.Some? ==> SplicedTo(r.value, old(d.Contents()), position.at - COOKIE, nDelete,
      Filling(insertFrom, nInsert), chain, d, offs, sizes)
    ensures position.at - COOKIE + nDelete > |old(d.Contents())| ==> r.None?
    ensures position.at - COOKIE + nDelete < offs[|chain| - 1] + sizes[|chain| - 1]
      && |old(d.Contents())| as int + nInsert as int - nDelete as int <= old(d.Capacity())
      ==> r.Some? && d.buf == old(d.buf)
    decreases |chain|, 2
  {
    hide Splice, Reheader, HeadersAre, HeadersFit, NewSize, Patch, BeforeHeader, SplicedTo, Filling;
    ghost var n := |chain| - 1;
    ghost var b := d.Contents();
    HeaderRead(chain, d, offs, sizes, n);
    HeaderRead(chain, d, offs, sizes, 0);
    var buf := mut.data.buf;
    var size := AsInt32(ReadU32le(buf[..][mut.data.at..]));
    var newSize := NewSize(size, nDelete, nInsert);
    NewSizeExact(size, nDelete, nInsert);
    if newSize.None? {
      return None;
    }
    r := MakeRoom(mut, position, nDelete, nInsert, insertFrom, newSize.value, chain, d, offs, sizes);
    if r.None? {
      return None;
    }
    ghost var before := d.buf[..];
    RoomForHeader(before, b, position.at - COOKIE, nDelete, Filling(insertFrom, nInsert), offs, sizes);
    assert mut.data == Ptr(d.buf, COOKIE + offs[n]);
    var end := WriteU32le(mut.data.buf, mut.data.at, newSize.value);
    assert newSize.value == sizes[n] + |Filling(insertFrom, nInsert)| - nDelete;
    FinishSplice(
      r.value, before, b, position.at - COOKIE, nDelete, Filling(insertFrom, nInsert), chain, d, offs, sizes);
  }

  lemma RoomForHeader(
      mem: seq<byte>, b: seq<byte>, pos: nat, nDelete: nat, ins: seq<byte>, offs: seq<nat>, sizes: seq<nat>)
    requires |offs| == |sizes| > 0 && BeforeHeader(mem, b, pos, nDelete, ins, offs, sizes)
    ensures COOKIE + offs[|offs| - 1] + 4 <= |mem|
  {
    hide Splice, Reheader;
    assert offs[|offs| - 1] + 4 <= |Splice(b, pos, nDelete, ins)|;
  }

  lemma FinishSplice(
      r: Ptr, before: seq<byte>, b: seq<byte>, pos: nat, nDelete: nat, ins: seq<byte>,
      chain: seq<Mut>, d: Doc, offs: seq<nat>, sizes: seq<nat>)
    requires |offs| == |sizes| > 0 && BeforeHeader(before, b, pos, nDelete, ins, offs, sizes)
    requires COOKIE + offs[|offs| - 1] + 4 <= |before|
    requires d.buf[..] == Patch(before, COOKIE + offs[|offs| - 1], U32le(sizes[|offs| - 1] + |ins| - nDelete))
    requires r == Ptr(d.buf, COOKIE + pos) && Placed(chain, d.buf, offs)
    ensures SplicedTo(r, b, pos, nDelete, ins, chain, d, offs, sizes)
  {
    hide Splice, Patch, Reheader, HeadersFit;
    HeaderWritten(before, d.buf[..], b, pos, nDelete, ins, offs, sizes);
  }

  /** Everything but the own header: in a child through the parent, in a root directly. */
  method MakeRoom(
      mut: Mut, position: Ptr, nDelete: Int.size_t, nInsert: Int.size_t, insertFrom: Option<seq<byte>>, newSize: int,
      ghost chain: seq<Mut>, ghost d: Doc, ghost offs: seq<nat>, ghost sizes: seq<nat>)
    returns (r: Option<Ptr>)
    requires Aligned(chain, d, offs, sizes) && mut == chain[|chain| - 1]
    requires position.buf == d.buf
    requires COOKIE + offs[|chain| - 1] + 4 <= position.at < COOKIE + offs[|chain| - 1] + sizes[|chain| - 1]
    requires insertFrom.Some? ==> |insertFrom.value| == nInsert
    requires 0 <= newSize <= INT32_MAX
    requires newSize == sizes[|chain| - 1] as int + nInsert as int - nDelete as int
    modifies chain, d`buf, d.buf
    ensures d.buf == old(d.buf) || (fresh(d.buf) && old(d.buf)[..] == old(d.buf[..]))
    ensures r.None? ==> d.buf == old(d.buf) && d.buf[..] == old(d.buf[..]) && Placed(chain, d.buf, offs)
    ensures r.Some? ==>
      && Placed(chain, d.buf, offs)
      && r.value == Ptr(d.buf, position.at)
      && BeforeHeader(
        d.buf[..], old(d.Contents()), position.at - COOKIE, nDelete, Filling(insertFrom, nInsert), offs, sizes)
    ensures position.at - COOKIE + nDelete > |old(d.Contents())| ==> r.None?
    ensures position.at - COOKIE + nDelete < offs[|chain| - 1] + sizes[|chain| - 1]
      && |old(d.Contents())| as int + nInsert as int - nDelete as int <= old(d.Capacity())
      ==> r.Some? && d.buf == old(d.buf)
    decreases |chain|, 1
  {
    hide Splice, Reheader, HeadersAre, HeadersFit, BeforeHeader, U32le, Filling, Nested;
    if mut.offset > 0 {
      r := SpliceChild(mut, position, nDelete, nInsert, insertFrom, chain, d, offs, sizes);
    } else {
      RootAligned(chain, d, offs, sizes);
      ghost var b := d.Contents();
      r := SpliceRoot(mut, mut.doc, position, nDelete, nInsert, insertFrom, newSize);
      if r.Some? {
        RootBeforeHeader(d.buf[..], b, position.at - COOKIE, nDelete, Filling(insertFrom, nInsert), offs, sizes);
      }
    }
  }

  lemma RootAligned(chain: seq<Mut>, d: Doc, offs: seq<nat>, sizes: seq<nat>)
    requires Aligned(chain, d, offs, sizes) && chain[|chain| - 1].offset == 0
    ensures |chain| == |offs| == |sizes| == 1 && offs[0] == 0 && sizes[0] == d.Size()
    ensures chain[0].doc == d && chain[0].data == Ptr(d.buf, COOKIE)
  {
  }

  lemma RootBeforeHeader(
      mem: seq<byte>, b: seq<byte>, pos: nat, nDelete: nat, ins: seq<byte>, offs: seq<nat>, sizes: seq<nat>)
    requires |offs| == |sizes| == 1 && offs[0] == 0 && 4 <= pos && pos + nDelete <= |b|
    requires COOKIE + |b| - nDelete + |ins| <= |mem| && 9 <= |mem| <= INT32_MAX
    requires mem[..COOKIE] == U32le(|mem| - COOKIE)
    requires mem[COOKIE..COOKIE + |b| - nDelete + |ins|] == Splice(b, pos, nDelete, ins)
    ensures BeforeHeader(mem, b, pos, nDelete, ins, offs, sizes)
  {
    assert offs[..0] == [] && Bump(sizes[..0], |ins| - nDelete) == [];
  }

  /** The child's part: let the parent do the work, then find the own header again. */
  method SpliceChild(
      mut: Mut, position: Ptr, nDelete: Int.size_t, nInsert: Int.size_t, insertFrom: Option<seq<byte>>,
      ghost chain: seq<Mut>, ghost d: Doc, ghost offs: seq<nat>, ghost sizes: seq<nat>)
    returns (r: Option<Ptr>)
    requires Aligned(chain, d, offs, sizes) && mut == chain[|chain| - 1] && |chain| > 1
    requires position.buf == d.buf
    requires COOKIE + offs[|chain| - 1] + 4 <= position.at < COOKIE + offs[|chain| - 1] + sizes[|chain| - 1]
    requires insertFrom.Some? ==> |insertFrom.value| == nInsert
    modifies chain, d`buf, d.buf
    ensures d.buf == old(d.buf) || (fresh(d.buf) && old(d.buf)[..] == old(d.buf[..]))
    ensures r.None? ==> d.buf == old(d.buf) && d.buf[..] == old(d.buf[..]) && Placed(chain, d.buf, offs)
    ensures r.Some? ==>
      && Placed(chain, d.buf, offs)
      && r.value == Ptr(d.buf, position.at)
      && BeforeHeader(
        d.buf[..], old(d.Contents()), position.at - COOKIE, nDelete, Filling(insertFrom, nInsert), offs, sizes)
    ensures position.at - COOKIE + nDelete > |old(d.Contents())| ==> r.None?
    ensures position.at - COOKIE + nDelete < offs[|chain| - 1] + sizes[|chain| - 1]
      && |old(d.Contents())| as int + nInsert as int - nDelete as int <= old(d.Capacity())
      ==> r.Some? && d.buf == old(d.buf)
    decreases |chain|, 0
  {
    hide Splice, Reheader, HeadersAre, HeadersFit, Aligned, Filling, SplicedTo, BeforeHeader;
    AlignedLinked(chain, d, offs, sizes);
    ghost var b := d.Contents();
    ghost var n := |chain| - 1;
    AlignedParent(chain, d, offs, sizes);
    LastDistinct(chain, d);
    var parent := mut.parent;
    var myDocOffset := mut.data.at - parent.data.at;
    r := SpliceRegion(parent, position, nDelete, nInsert, insertFrom, chain[..n], d, offs[..n], sizes[..n]);
    if r.Some? {
      ParentPlaced(r.value, b, position.at - COOKIE, nDelete, Filling(insertFrom, nInsert), chain[..n], d, offs[..n],
        sizes[..n]);
      mut.data := Ptr(parent.data.buf, parent.data.at + myDocOffset);
      ChildReady(r.value, b, position.at - COOKIE, nDelete, Filling(insertFrom, nInsert), chain, d, offs, sizes);
    }
  }

  lemma ParentPlaced(
      r: Ptr, b: seq<byte>, pos: nat, nDelete: nat, ins: seq<byte>,
      chain: seq<Mut>, d: Doc, offs: seq<nat>, sizes: seq<nat>)
    requires |chain| == |offs| == |sizes| > 0 && SplicedTo(r, b, pos, nDelete, ins, chain, d, offs, sizes)
    ensures chain[|chain| - 1].data == Ptr(d.buf, COOKIE + offs[|chain| - 1])
  {
  }

  lemma ChildReady(
      r: Ptr, b: seq<byte>, pos: nat, nDelete: nat, ins: seq<byte>,
      chain: seq<Mut>, d: Doc, offs: seq<nat>, sizes: seq<nat>)
    requires |chain| == |offs| == |sizes| > 0
    requires var n := |chain| - 1;
      && SplicedTo(r, b, pos, nDelete, ins, chain[..n], d, offs[..n], sizes[..n])
      && chain[n].data == Ptr(d.buf, COOKIE + offs[n]) && offs[n] + 4 <= pos
    ensures Placed(chain, d.buf, offs)
    ensures r == Ptr(d.buf, COOKIE + pos)
    ensures BeforeHeader(d.buf[..], b, pos, nDelete, ins, offs, sizes)
  {
    hide Splice, Reheader, HeadersFit, U32le;
    var n := |chain| - 1;
    forall i | 0 <= i < |chain|
      ensures chain[i].data == Ptr(d.buf, COOKIE + offs[i])
    {
      if i < n {
        assert chain[i] == chain[..n][i] && offs[i] == offs[..n][i];
      }
    }
    ChildBeforeHeader(d.buf[..], b, pos, nDelete, ins, offs, sizes);
  }

  lemma ChildBeforeHeader(
      mem: seq<byte>, b: seq<byte>, pos: nat, nDelete: nat, ins: seq<byte>, offs: seq<nat>, sizes: seq<nat>)
    requires |offs| == |sizes| > 0 && offs[|offs| - 1] + 4 <= pos && pos + nDelete <= |b|
    requires COOKIE + |b| - nDelete + |ins| <= |mem| && 9 <= |mem| <= INT32_MAX
    requires mem[..COOKIE] == U32le(|mem| - COOKIE)
    requires var n := |offs| - 1;
      && HeadersFit(Splice(b, pos, nDelete, ins), offs[..n])
      && mem[COOKIE..COOKIE + |b| - nDelete + |ins|]
      == Reheader(Splice(b, pos, nDelete, ins), offs[..n], Bump(sizes[..n], |ins| - nDelete))
    ensures BeforeHeader(mem, b, pos, nDelete, ins, offs, sizes)
  {
    hide Splice, Reheader, U32le;
    forall i | 0 <= i < |offs|
      ensures offs[i] + 4 <= |Splice(b, pos, nDelete, ins)|
    {
      if i < |offs| - 1 {
        assert offs[..|offs| - 1][i] == offs[i];
      }
    }
  }

  /**
   The allocation when only the innermost header is still to be rewritten: the
   bytes are spliced and the headers of all ancestors are final.
   */
  ghost predicate BeforeHeader(
      mem: seq<byte>, b: seq<byte>, pos: nat, nDelete: nat, ins: seq<byte>, offs: seq<nat>, sizes: seq<nat>)
    requires |offs| == |sizes| > 0
  {
    var n := |offs| - 1;
    && pos + nDelete <= |b|
    && COOKIE + |b| - nDelete + |ins| <= |mem| && 9 <= |mem| <= INT32_MAX
    && mem[..COOKIE] == U32le(|mem| - COOKIE)
    && HeadersFit(Splice(b, pos, nDelete, ins), offs)
    && mem[COOKIE..COOKIE + |b| - nDelete + |ins|]
    == Reheader(Splice(b, pos, nDelete, ins), offs[..n], Bump(sizes[..n], |ins| - nDelete))
  }

  lemma HeaderWritten(
      before: seq<byte>, after: seq<byte>, b: seq<byte>, pos: nat, nDelete: nat, ins: seq<byte>,
      offs: seq<nat>, sizes: seq<nat>)
    requires |offs| == |sizes| > 0 && BeforeHeader(before, b, pos, nDelete, ins, offs, sizes)
    requires COOKIE + offs[|offs| - 1] + 4 <= |before|
    requires after == Patch(before, COOKIE + offs[|offs| - 1], U32le(sizes[|offs| - 1] + |ins| - nDelete))
    ensures |after| == |before| && after[..COOKIE] == before[..COOKIE]
    ensures after[COOKIE..COOKIE + |b| - nDelete + |ins|]
         == Reheader(Splice(b, pos, nDelete, ins), offs, Bump(sizes, |ins| - nDelete))
  {
    hide Splice, Patch, U32le;
    var n := |offs| - 1;
    var sizes' := Bump(sizes, |ins| - nDelete);
    assert sizes'[..n] == Bump(sizes[..n], |ins| - nDelete);
    PatchWithin(before, COOKIE, COOKIE + |b| - nDelete + |ins|, COOKIE + offs[n], U32le(sizes'[n]));
  }

  /** The state that a successful splice leaves. */
  ghost predicate SplicedTo(
      r: Ptr, b: seq<byte>, pos: nat, nDelete: nat, ins: seq<byte>,
      chain: seq<Mut>, d: Doc, offs: seq<nat>, sizes: seq<nat>)
    requires |offs| == |sizes|
    reads chain, d, d.buf
  {
    && r == Ptr(d.buf, COOKIE + pos)
    && Placed(chain, d.buf, offs)
    && pos + nDelete <= |b|
    && COOKIE + |b| - nDelete + |ins| <= d.buf.Length && 9 <= d.buf.Length <= INT32_MAX
    && d.buf[..][..COOKIE] == U32le(d.buf.Length - COOKIE)
    && HeadersFit(Splice(b, pos, nDelete, ins), offs)
    && d.buf[..][COOKIE..COOKIE + |b| - nDelete + |ins|]
    == Reheader(Splice(b, pos, nDelete, ins), offs, Bump(sizes, |ins| - nDelete))
  }
}
