/**
 Moving between nesting levels (`include/bson/mut.h`): child mutators, the way back
 from a child to its element in the parent, the room left at each level, and
 inserting an empty subdocument to be filled through a child.
 */
module Nesting {
  import opened Bytes
  import opened Frames
  import opened Document
  import opened Iteration
  import opened Reading
  import opened Values
  import opened Storage
  import opened Mutator
  import opened Tracking
  import opened Insertion
  import opened Ranges
  import Int = Integer

  // ----- paths that are one step longer

  lemma {:induction false} OffsetsSnoc(fs: seq<Frame>, f: Frame, base: nat)
    ensures Offsets(fs + [f], base) == Offsets(fs, base) + [Offsets(fs, base)[|fs|] + 4 + |f.lead|]
  {
    hide Offsets;
    var g := fs + [f];
    OffsetsCons(g, base);
    if fs == [] {
      assert g[1..] == [];
      OffsetsNil(base);
      OffsetsNil(base + 4 + |f.lead|);
    } else {
      assert g[1..] == fs[1..] + [f] && g[0] == fs[0];
      OffsetsSnoc(fs[1..], f, base + 4 + |fs[0].lead|);
      OffsetsCons(fs, base);
    }
  }

  lemma OffsetsNil(base: nat)
    ensures Offsets([], base) == [base]
  {
  }

  lemma OffsetsCons(fs: seq<Frame>, base: nat)
    requires fs != []
    ensures Offsets(fs, base) == [base] + Offsets(fs[1..], base + 4 + |fs[0].lead|)
  {
  }

  /** The frame that element `k` puts around its value. */
  function FrameAt(inner: seq<Element>, k: nat): Frame
    requires k < |inner|
  {
    Frame(Lead(inner, k), EncodeList(inner[k + 1..]) + [0])
  }

  lemma {:induction false} LongerPath(es: seq<Element>, path: seq<nat>, k: nat)
    requires ValidPath(es, path) && k < |Inner(es, path)| && Inner(es, path)[k].node.Sub?
    ensures ValidPath(es, path + [k])
    ensures Inner(es, path + [k]) == Inner(es, path)[k].node.es
    ensures FramesOf(es, path + [k]) == FramesOf(es, path) + [FrameAt(Inner(es, path), k)]
    ensures ElemOffsets(es, path + [k]) == ElemOffsets(es, path) + [ElemOffset(Inner(es, path), k)]
  {
    hide Lead, EncodeList, ElemOffset;
    if path == [] {
      assert path + [k] == [k] && [k][1..] == [];
      var sub := es[k].node.es;
      assert FramesOf(sub, []) == [] && ElemOffsets(sub, []) == [];
      assert ValidPath(sub, []);
    } else {
      assert (path + [k])[1..] == path[1..] + [k];
      LongerPath(es[path[0]].node.es, path[1..], k);
    }
  }

  lemma BaseBelow(es: seq<Element>, path: seq<nat>, k: nat)
    requires ValidPath(es, path) && k < |Inner(es, path)| && Inner(es, path)[k].node.Sub?
    ensures ValidPath(es, path + [k])
    ensures Base(es, path + [k]) == Base(es, path) + ElemOffset(Inner(es, path), k) + 2 + |Inner(es, path)[k].key|
  {
    hide FramesOf, Offsets, EncodeList;
    LongerPath(es, path, k);
    OffsetsSnoc(FramesOf(es, path), FrameAt(Inner(es, path), k), 0);
  }

  /** A chain extended by a mutator for element `k` tracks the same tree one level deeper. */
  lemma TracksChild(chain: seq<Mut>, d: Doc, es: seq<Element>, path: seq<nat>, k: nat, child: Mut)
    requires Tracks(chain, d, es, path) && k < |Inner(es, path)| && Inner(es, path)[k].node.Sub?
    requires child.parent == chain[|path|] && child.offset == ElemOffset(Inner(es, path), k)
    requires child.data == Ptr(d.buf, CursorAt(d.buf, es, path, k).it.pos + 2 + |Inner(es, path)[k].key|)
    ensures Tracks(chain + [child], d, es, path + [k])
  {
    hide EncodeList, EncodeDoc, FramesOf, Offsets, Wrap, Proper, Inner;
    TracksContents(chain, d, es, path);
    LongerPath(es, path, k);
    BaseBelow(es, path, k);
    FramesOfProper(es, path + [k]);
    EncodeIsWrapped(es, path + [k]);
    ChainGrows(chain, d, es, path, k, child);
  }

  lemma ChainGrows(chain: seq<Mut>, d: Doc, es: seq<Element>, path: seq<nat>, k: nat, child: Mut)
    requires Tracks(chain, d, es, path) && k < |Inner(es, path)| && Inner(es, path)[k].node.Sub?
    requires child.parent == chain[|path|] && child.offset == ElemOffset(Inner(es, path), k)
    requires child.data == Ptr(d.buf, CursorAt(d.buf, es, path, k).it.pos + 2 + |Inner(es, path)[k].key|)
    ensures ValidPath(es, path + [k]) && |FramesOf(es, path + [k])| == |path| + 1
    ensures Linked(chain + [child], d) && Placed(chain + [child], d.buf, Offsets(FramesOf(es, path + [k]), 0))
    ensures ChildOffsets(chain + [child], es, path + [k])
  {
    hide EncodeList, EncodeDoc, FramesOf, Offsets, Wrap, Proper, Inner;
    LongerPath(es, path, k);
    OffsetsSnoc(FramesOf(es, path), FrameAt(Inner(es, path), k), 0);
    var offs := Offsets(FramesOf(es, path + [k]), 0);
    forall i | 0 <= i < |chain| + 1
      ensures (chain + [child])[i].data == Ptr(d.buf, COOKIE + offs[i])
    {
      if i < |chain| {
        assert offs[i] == Offsets(FramesOf(es, path), 0)[i];
      }
    }
  }

  /** Two lists of elements with the same bytes are tracked alike. */
  lemma Retrack(chain: seq<Mut>, d: Doc, es: seq<Element>, path: seq<nat>, a: seq<Element>, b: seq<Element>)
    requires ValidPath(es, path) && Tracks(chain, d, Update(es, path, a), path)
    requires EncodeList(a) == EncodeList(b)
    ensures Tracks(chain, d, Update(es, path, b), path)
  {
    hide InSync, EncodeList, FramesOf;
    UpdateKeepsFrames(es, path, a);
    UpdateKeepsElemOffsets(es, path, a);
    TracksUpdated(chain, d, es, path, b);
  }

  /** The tree in which the value of element `k`, stored as the bytes of the document `sub`, is that document. */
  function AsTree(es: seq<Element>, path: seq<nat>, k: nat, sub: seq<Element>): seq<Element>
    requires ValidPath(es, path) && k < |Inner(es, path)|
  {
    var inner := Inner(es, path);
    Update(es, path, inner[k := inner[k].(node := Sub(inner[k].node.Tag() == TAG_ARRAY, sub))])
  }

  /** A stored document value seen as a tree. */
  lemma ViewAsTree(chain: seq<Mut>, d: Doc, es: seq<Element>, path: seq<nat>, k: nat, sub: seq<Element>)
    requires Tracks(chain, d, es, path) && k < |Inner(es, path)|
    requires Inner(es, path)[k].node.Tag() == TAG_DOCUMENT || Inner(es, path)[k].node.Tag() == TAG_ARRAY
    requires EncodeNode(Inner(es, path)[k].node) == EncodeDoc(sub)
    ensures var es' := AsTree(es, path, k, sub);
      && Tracks(chain, d, es', path) && k < |Inner(es', path)|
      && Inner(es', path)[k].node.Sub? && Inner(es', path)[k].node.es == sub
      && Inner(es', path)[k].key == Inner(es, path)[k].key
      && ElemOffset(Inner(es', path), k) == ElemOffset(Inner(es, path), k) && Base(es', path) == Base(es, path)
  {
    hide EncodeDoc, EncodeList, EncodeElement, InSync, FramesOf, Base;
    var inner := Inner(es, path);
    var inner' := inner[k := inner[k].(node := Sub(inner[k].node.Tag() == TAG_ARRAY, sub))];
    SameBytes(inner[k], inner'[k]);
    EncodeListPick(inner, k);
    EncodeListPick(inner', k);
    assert inner'[..k] == inner[..k] && inner'[k + 1..] == inner[k + 1..];
    UpdateSame(es, path);
    Retrack(chain, d, es, path, inner, inner');
    UpdateKeepsBase(es, path, inner');
  }

  lemma SameBytes(a: Element, b: Element)
    requires a.key == b.key && a.node.Tag() == b.node.Tag() && EncodeNode(a.node) == EncodeNode(b.node)
    ensures EncodeElement(a) == EncodeElement(b)
  {
    hide EncodeNode;
  }

  /** The chain and a child at element `k` track the tree in which its value is the document `sub`. */
  ghost predicate ChildTracks(
      chain: seq<Mut>, child: Mut, d: Doc, es: seq<Element>, path: seq<nat>, k: nat, sub: seq<Element>)
    requires ValidPath(es, path) && k < |Inner(es, path)|
    reads chain, child, d, d.buf, d.empty
  {
    var es' := AsTree(es, path, k, sub);
    && Tracks(chain, d, es', path)
    && ValidPath(es', path + [k]) && Inner(es', path + [k]) == sub
    && Tracks(chain + [child], d, es', path + [k])
  }

  /**
   `bson_mut_child`: null exactly when the element is neither a document nor an
   array; otherwise the extended chain tracks the same tree one level deeper. A value
   that was stored as the bytes of a document is edited as that document.
   */
  method MutChild(
      parent: Mut, it: Cursor,
      ghost chain: seq<Mut>, ghost d: Doc, ghost es: seq<Element>, ghost path: seq<nat>, ghost k: nat)
    returns (child: Mut?)
    requires Tracks(chain, d, es, path) && parent == chain[|path|]
    requires k < |Inner(es, path)| && it == CursorAt(d.buf, es, path, k)
    ensures var tag := Inner(es, path)[k].node.Tag();
      child == null <==> tag != TAG_DOCUMENT && tag != TAG_ARRAY
    ensures child != null ==> fresh(child)
    ensures child != null && Inner(es, path)[k].node.Sub? ==>
      Tracks(chain, d, es, path) && Tracks(chain + [child], d, es, path + [k])
    ensures child != null ==>
      forall sub :: EncodeDoc(sub) == EncodeNode(Inner(es, path)[k].node) ==>
        ChildTracks(chain, child, d, es, path, k, sub)
  {
    hide EncodeDoc, EncodeList, InSync, FramesOf, Base, Holds, ReadU32le, AsTree, ChildTracks;
    CursorFacts(chain, d, es, path, k);
    ElementTag(chain, d, es, path, k);
    var tag := it.buf[it.it.pos];
    if tag != TAG_DOCUMENT && tag != TAG_ARRAY {
      return null;
    }
    var elemOffset := it.it.pos - parent.data.at;
    child := new Mut.Child(parent, elemOffset, Ptr(parent.data.buf, parent.data.at + elemOffset + it.it.keylen + 2));
    if Inner(es, path)[k].node.Sub? {
      TracksChild(chain, d, es, path, k, child);
    }
    forall sub | EncodeDoc(sub) == EncodeNode(Inner(es, path)[k].node)
      ensures ChildTracks(chain, child, d, es, path, k, sub)
    {
      ChildOfView(chain, child, d, es, path, k, sub);
    }
  }

  lemma ChildOfView(
      chain: seq<Mut>, child: Mut, d: Doc, es: seq<Element>, path: seq<nat>, k: nat, sub: seq<Element>)
    requires Tracks(chain, d, es, path) && k < |Inner(es, path)|
    requires Inner(es, path)[k].node.Tag() == TAG_DOCUMENT || Inner(es, path)[k].node.Tag() == TAG_ARRAY
    requires EncodeNode(Inner(es, path)[k].node) == EncodeDoc(sub)
    requires child.parent == chain[|path|] && child.offset == ElemOffset(Inner(es, path), k)
    requires child.data == Ptr(d.buf, CursorAt(d.buf, es, path, k).it.pos + 2 + |Inner(es, path)[k].key|)
    ensures ChildTracks(chain, child, d, es, path, k, sub)
  {
    hide EncodeDoc, EncodeList, EncodeNode, InSync, FramesOf, Base, AsTree;
    var es' := AsTree(es, path, k, sub);
    ViewAsTree(chain, d, es, path, k, sub);
    LongerPath(es', path, k);
    TracksChild(chain, d, es', path, k, child);
  }

  /** The byte an iterator stands at is its element's tag. */
  lemma ElementTag(chain: seq<Mut>, d: Doc, es: seq<Element>, path: seq<nat>, k: nat)
    requires Tracks(chain, d, es, path) && k < |Inner(es, path)|
    ensures var it := CursorAt(d.buf, es, path, k).it;
      it.pos < d.buf.Length && d.buf[it.pos] == Inner(es, path)[k].node.Tag()
  {
    hide EncodeDoc, EncodeList, InSync, FramesOf, Base;
    var inner := Inner(es, path);
    InnerHeld(chain, d, es, path);
    TailOfDoc(d.buf[..], Base(es, path), inner, k);
    EncodeListPickTail(inner, k);
    ElementBytes(inner[k]);
    var it := CursorAt(d.buf, es, path, k).it;
    assert d.buf[..][it.pos..it.pos + it.rlen][0] == d.buf[it.pos];
  }

  // ----- back to the parent

  /** Without its last mutator the chain tracks the same tree one level higher. */
  lemma TracksParent(chain: seq<Mut>, d: Doc, es: seq<Element>, path: seq<nat>, k: nat)
    requires ValidPath(es, path) && k < |Inner(es, path)| && Inner(es, path)[k].node.Sub?
    requires ValidPath(es, path + [k]) && Tracks(chain, d, es, path + [k])
    ensures |chain| == |path| + 2 && Tracks(chain[..|path| + 1], d, es, path)
    ensures chain[|path| + 1].parent == chain[|path|]
    ensures chain[|path| + 1].offset == ElemOffset(Inner(es, path), k)
    ensures chain[|path| + 1].data == Ptr(d.buf, Base(es, path + [k]))
  {
    hide EncodeList, EncodeDoc, FramesOf, Offsets, Wrap, Proper, Inner;
    var n := |path| + 1;
    LongerPath(es, path, k);
    TracksContents(chain, d, es, path + [k]);
    FramesOfProper(es, path);
    EncodeIsWrapped(es, path);
    OffsetsSnoc(FramesOf(es, path), FrameAt(Inner(es, path), k), 0);
    var offs := Offsets(FramesOf(es, path + [k]), 0);
    assert forall i :: 0 <= i < n ==> offs[i] == Offsets(FramesOf(es, path), 0)[i];
    assert Linked(chain[..n], d);
    assert forall i :: 0 <= i < |path| ==> ElemOffsets(es, path + [k])[i] == ElemOffsets(es, path)[i];
    assert chain[|path| + 1].offset == ElemOffsets(es, path + [k])[|path|];
  }

  /**
   `bson_mut_parent_iterator`: the parent's iterator to the element whose document
   the child edits. Its arithmetic never trips the assertion.
   */
  method MutParentIterator(
      child: Mut, ghost chain: seq<Mut>, ghost d: Doc, ghost es: seq<Element>, ghost path: seq<nat>, ghost k: nat)
    returns (r: Cursor)
    requires ValidPath(es, path) && k < |Inner(es, path)| && Inner(es, path)[k].node.Sub?
    requires ValidPath(es, path + [k]) && Tracks(chain, d, es, path + [k]) && child == chain[|path| + 1]
    ensures r == CursorAt(d.buf, es, path, k)
  {
    hide EncodeDoc, EncodeList, InSync, FramesOf, Base, ReadU32le, Tracks, IterFor, Inner;
    TracksParent(chain, d, es, path, k);
    BaseBelow(es, path, k);
    CursorFacts(chain[..|path| + 1], d, es, path, k);
    InnerSize(chain[..|path| + 1], d, es, path);
    var parent := child.parent;
    var at := parent.data.at + child.offset;
    var keylen := Int.Sub(Int.FromI64(child.data.at - at), Int.FromI64(2));
    assert keylen.flags == {};
    var size := AsInt32(ReadU32le(parent.data.buf[..][parent.data.at..]));
    r := Cursor(parent.data.buf, At(at, keylen.i64, size - child.offset));
  }

  lemma InnerSize(chain: seq<Mut>, d: Doc, es: seq<Element>, path: seq<nat>)
    requires Tracks(chain, d, es, path)
    ensures Base(es, path) + 4 <= d.buf.Length <= INT32_MAX
    ensures AsInt32(ReadU32le(d.buf[..][Base(es, path)..])) == |EncodeDoc(Inner(es, path))|
  {
    hide EncodeDoc, EncodeList, Base, FramesOf, Wrap, Offsets, ReadU32le;
    InnerHeld(chain, d, es, path);
  }

  lemma {:induction false} UpdateLonger(es: seq<Element>, path: seq<nat>, k: nat, inner: seq<Element>)
    requires ValidPath(es, path) && k < |Inner(es, path)| && Inner(es, path)[k].node.Sub?
    ensures ValidPath(es, path + [k])
    ensures var e := Inner(es, path)[k];
      Update(es, path + [k], inner) == Update(es, path, Inner(es, path)[k := e.(node := Sub(e.node.isArray, inner))])
  {
    LongerPath(es, path, k);
    if path == [] {
      assert path + [k] == [k] && [k][1..] == [];
    } else {
      assert (path + [k])[1..] == path[1..] + [k];
      UpdateLonger(es[path[0]].node.es, path[1..], k, inner);
    }
  }

  /**
   Whatever is edited through a child, the parent's iterator still names the same
   element with the same key, and its remaining length follows the size change.
   */
  lemma ParentIteratorKept(buf: array<byte>, es: seq<Element>, path: seq<nat>, k: nat, inner: seq<Element>)
    requires ValidPath(es, path) && k < |Inner(es, path)| && Inner(es, path)[k].node.Sub?
    ensures ValidPath(es, path + [k])
    ensures var es' := Update(es, path + [k], inner);
      && ValidPath(es', path) && k < |Inner(es', path)|
      && Inner(es', path)[k].key == Inner(es, path)[k].key
      && Inner(es', path)[k].node == Sub(Inner(es, path)[k].node.isArray, inner)
      && var it, it' := CursorAt(buf, es, path, k).it, CursorAt(buf, es', path, k).it;
      && it'.pos == it.pos && it'.keylen == it.keylen
      && it'.rlen + |EncodeList(Inner(es, path + [k]))| == it.rlen + |EncodeList(inner)|
  {
    hide EncodeList, Base, Update, Inner;
    LongerPath(es, path, k);
    UpdateLonger(es, path, k, inner);
    var was := Inner(es, path);
    var now := was[k := was[k].(node := Sub(was[k].node.isArray, inner))];
    UpdateKeepsBase(es, path, now);
    ResizedElement(was, k, inner);
    assert now[..k] == was[..k];
    ElemOffsetsAscend(was, k, |was|);
    ElemOffsetsAscend(now, k, |now|);
  }

  lemma ResizedElement(was: seq<Element>, k: nat, inner: seq<Element>)
    requires k < |was| && was[k].node.Sub?
    ensures var now := was[k := was[k].(node := Sub(was[k].node.isArray, inner))];
      |EncodeDoc(now)| + |EncodeList(was[k].node.es)| == |EncodeDoc(was)| + |EncodeList(inner)|
  {
    hide EncodeList;
    var now := was[k := was[k].(node := Sub(was[k].node.isArray, inner))];
    EncodeListPick(was, k);
    EncodeListPick(now, k);
    assert now[..k] == was[..k] && now[k + 1..] == was[k + 1..];
  }

  // ----- free room

  /**
   `bson_mut_capacity`: the room left before a reallocation is the same at every
   depth, and the checked arithmetic never trips its assertion.
   */
  method MutCapacity(
      mut: Mut, ghost chain: seq<Mut>, ghost d: Doc, ghost offs: seq<nat>, ghost sizes: seq<nat>)
    returns (r: uint32)
    requires Aligned(chain, d, offs, sizes) && mut == chain[|chain| - 1]
    ensures |sizes| == |chain|
    ensures r - sizes[|chain| - 1] == d.Capacity() - |d.Contents()| >= 0
    decreases |chain|
  {
    hide ReadU32le, Nested;
    ghost var n := |chain| - 1;
    HeaderRead(chain, d, offs, sizes, n);
    HeaderRead(chain, d, offs, sizes, 0);
    if mut.offset > 0 {
      AlignedParent(chain, d, offs, sizes);
      HeaderRead(chain, d, offs, sizes, n - 1);
      var parent := mut.parent;
      var parentSize := AsInt32(ReadU32le(parent.data.buf[..][parent.data.at..]));
      var size := AsInt32(ReadU32le(mut.data.buf[..][mut.data.at..]));
      var parentCapacity := MutCapacity(parent, chain[..n], d, offs[..n], sizes[..n]);
      var before := Int.Sub(Int.FromI64(0), Int.FromI64(mut.offset));
      var untilParentEnd := Int.Sub(Int.FromI64(parentSize), before);
      var after := Int.Sub(untilParentEnd, Int.FromI64(size));
      var other := Int.Add(before, after, false);
      var remaining :=
        Int.CheckBounds(Int.FromI64(0), Int.FromI64(INT32_MAX), Int.Sub(Int.FromI64(parentCapacity), other));
      assert remaining.flags == {};
      return remaining.i64;
    }
    return mut.doc.Capacity();
  }

  // ----- subdocuments

  /** A document or array that is inserted by its bytes can be edited through a child as that document. */
  lemma InsertedDocument(key: seq<byte>, isArray: bool, sub: seq<Element>)
    ensures var v := if isArray then ArrayRef(EncodeDoc(sub)) else DocumentRef(EncodeDoc(sub));
      var node := NewElement(key, v).node;
      EncodeNode(node) == EncodeDoc(sub) && node.Tag() == Sub(isArray, sub).Tag()
  {
    hide EncodeDoc;
    var b := EncodeDoc(sub);
    assert b + Repeat(FILL, 0) == b;
  }

  function EmptyDocument(isArray: bool): ValueRef {
    if isArray then ArrayRef([]) else DocumentRef([])
  }

  /** A null view is stored as the encoding of an empty document. */
  lemma EmptyStored(inner: seq<Element>, k: nat, key: seq<byte>, isArray: bool)
    requires k <= |inner|
    ensures EncodeList(Replace(inner, k, k, [NewElement(key, EmptyDocument(isArray))]))
         == EncodeList(Replace(inner, k, k, [Element(Chop(key), Sub(isArray, []))]))
    ensures EncodeElement(NewElement(key, EmptyDocument(isArray)))
         == EncodeElement(Element(Chop(key), Sub(isArray, [])))
  {
    var a, b := NewElement(key, EmptyDocument(isArray)), Element(Chop(key), Sub(isArray, []));
    assert EncodeDoc([]) == [5, 0, 0, 0, 0];
    assert EncodeElement(a) == EncodeElement(b);
    SameElementBytes(inner, k, a, b);
  }

  lemma SameElementBytes(inner: seq<Element>, k: nat, a: Element, b: Element)
    requires k <= |inner| && EncodeElement(a) == EncodeElement(b)
    ensures EncodeList(Replace(inner, k, k, [a])) == EncodeList(Replace(inner, k, k, [b]))
  {
    hide EncodeList, EncodeElement;
    ReplaceIsSplice(inner, k, k, [a]);
    ReplaceIsSplice(inner, k, k, [b]);
    EncodeListSingle(a);
    EncodeListSingle(b);
  }

  /** The tree with an empty subdocument inserted before element `k`. */
  function WithSubdoc(es: seq<Element>, path: seq<nat>, k: nat, key: seq<byte>, isArray: bool): seq<Element>
    requires ValidPath(es, path) && k <= |Inner(es, path)|
  {
    Update(es, path, Replace(Inner(es, path), k, k, [Element(Chop(key), Sub(isArray, []))]))
  }

  lemma WithSubdocPath(es: seq<Element>, path: seq<nat>, k: nat, key: seq<byte>, isArray: bool)
    requires ValidPath(es, path) && k <= |Inner(es, path)|
    ensures var es' := WithSubdoc(es, path, k, key, isArray);
      && ValidPath(es', path) && k < |Inner(es', path)|
      && Inner(es', path)[k] == Element(Chop(key), Sub(isArray, []))
      && ValidPath(es', path + [k]) && Inner(es', path + [k]) == []
  {
    var es' := WithSubdoc(es, path, k, key, isArray);
    UpdateKeepsFrames(es, path, Replace(Inner(es, path), k, k, [Element(Chop(key), Sub(isArray, []))]));
    LongerPath(es', path, k);
  }

  /**
   `mutator::insert_subdoc` and `mutator::insert_array`: an empty subdocument and a
   child mutator for it; the child is null exactly when the insertion failed.
   */
  method InsertSubdoc(
      mut: Mut, pos: Cursor, key: seq<byte>, isArray: bool,
      ghost chain: seq<Mut>, ghost d: Doc, ghost es: seq<Element>, ghost path: seq<nat>, ghost k: nat)
    returns (r: Cursor, child: Mut?)
    requires Tracks(chain, d, es, path) && mut == chain[|path|]
    requires k <= |Inner(es, path)| && pos == CursorAt(d.buf, es, path, k) && |key| <= Int.INT64_MAX
    modifies chain, d`buf, d.buf
    ensures d.buf == old(d.buf) || (fresh(d.buf) && old(d.buf)[..] == old(d.buf[..]))
    ensures child == null ==>
      && Tracks(chain, d, es, path) && d.buf == old(d.buf) && d.buf[..] == old(d.buf[..])
      && r == CursorAt(d.buf, es, path, |Inner(es, path)|)
    ensures child != null ==>
      var es' := WithSubdoc(es, path, k, key, isArray);
      && fresh(child)
      && ValidPath(es', path + [k]) && Tracks(chain, d, es', path) && Tracks(chain + [child], d, es', path + [k])
      && k <= |Inner(es', path)| && r == CursorAt(d.buf, es', path, k)
    ensures |EncodeDoc(es)| + |Chop(key)| + 7 <= old(d.Capacity()) ==> child != null && d.buf == old(d.buf)
  {
    hide InSync, EncodeDoc, EncodeList, EncodeElement, Offsets, FramesOf, Base, NewElement, Chop, IterFor;
    ghost var inner := Inner(es, path);
    ghost var e := Element(Chop(key), Sub(isArray, []));
    EmptyStored(inner, k, key, isArray);
    EmptySubSize(key, isArray);
    var effect;
    r, effect := InsertValue(mut, pos, key, EmptyDocument(isArray), chain, d, es, path, k);
    if effect == Nothing {
      return r, null;
    }
    SubdocCursor(r, chain, d, es, path, k, key, isArray);
    WithSubdocPath(es, path, k, key, isArray);
    child := MutChild(mut, r, chain, d, WithSubdoc(es, path, k, key, isArray), path, k);
  }

  lemma EmptySubSize(key: seq<byte>, isArray: bool)
    ensures |EncodeElement(Element(Chop(key), Sub(isArray, [])))| == |Chop(key)| + 7
  {
    hide Chop;
    assert EncodeDoc([]) == [5, 0, 0, 0, 0];
  }

  lemma SubdocCursor(
      r: Cursor, chain: seq<Mut>, d: Doc, es: seq<Element>, path: seq<nat>, k: nat, key: seq<byte>, isArray: bool)
    requires ValidPath(es, path) && k <= |Inner(es, path)|
    requires InsertedAt(r, chain, d, es, path, k, key, EmptyDocument(isArray))
    ensures var es' := WithSubdoc(es, path, k, key, isArray);
      && ValidPath(es', path) && Tracks(chain, d, es', path) && k < |Inner(es', path)|
      && Inner(es', path)[k].node == Sub(isArray, [])
      && |chain| == |path| + 1
      && r == CursorAt(d.buf, es', path, k)
  {
    hide InSync, EncodeList, EncodeElement, FramesOf, Base, NewElement, Chop;
    var inner := Inner(es, path);
    var v := EmptyDocument(isArray);
    var a := Replace(inner, k, k, [NewElement(key, v)]);
    var b := Replace(inner, k, k, [Element(Chop(key), Sub(isArray, []))]);
    EmptyStored(inner, k, key, isArray);
    Retrack(chain, d, es, path, a, b);
    WithSubdocPath(es, path, k, key, isArray);
    UpdateKeepsBase(es, path, a);
    UpdateKeepsBase(es, path, b);
    assert a[..k] == b[..k];
    NewElementKey(key, v);
  }

  lemma NewElementKey(key: seq<byte>, v: ValueRef)
    ensures NewElement(key, v).key == Chop(key)
  {
  }
}
