/**
 Chains of nested mutators that track a tree: the bytes of the root document
 encode the tree, and every mutator stands at the subdocument it edits.
 */
module Tracking {
  import opened Bytes
  import opened Frames
  import opened Document
  import opened Iteration
  import opened Reading
  import opened Storage
  import opened Mutator
  import opened Sync
  import Int = Integer

  /** `bson_iterator` into an allocation that may move. */
  datatype Cursor = Cursor(buf: array<byte>, it: Iterator)

  // ----- chains that track a tree

  /** Where the elements along `path` start within their own documents. */
  function ElemOffsets(es: seq<Element>, path: seq<nat>): (offs: seq<nat>)
    requires ValidPath(es, path)
    ensures |offs| == |path|
  {
    if path == [] then []
    else [ElemOffset(es, path[0])] + ElemOffsets(es[path[0]].node.es, path[1..])
  }

  /**
   The document's bytes encode the tree `es`, and the chain consists of a mutator
   for the root, one for each subdocument along `path`, all in sync.
   */
  ghost predicate Tracks(chain: seq<Mut>, d: Doc, es: seq<Element>, path: seq<nat>)
    reads chain, d, d.buf, d.empty
  {
    && ValidPath(es, path)
    && InSync(chain, d, FramesOf(es, path), EncodeList(Inner(es, path)))
    && ChildOffsets(chain, es, path)
  }

  ghost predicate ChildOffsets(chain: seq<Mut>, es: seq<Element>, path: seq<nat>)
    requires ValidPath(es, path)
  {
    |chain| == |path| + 1 && forall i :: 0 <= i < |path| ==> chain[i + 1].offset == ElemOffsets(es, path)[i]
  }

  lemma TracksContents(chain: seq<Mut>, d: Doc, es: seq<Element>, path: seq<nat>)
    requires Tracks(chain, d, es, path)
    ensures d.Contents() == EncodeDoc(es)
  {
    hide Wrap, FramesOf, EncodeList, EncodeDoc;
    EncodeIsWrapped(es, path);
  }

  lemma {:induction false} UpdateKeepsElemOffsets(es: seq<Element>, path: seq<nat>, inner: seq<Element>)
    requires ValidPath(es, path)
    ensures ValidPath(Update(es, path, inner), path)
    ensures ElemOffsets(Update(es, path, inner), path) == ElemOffsets(es, path)
  {
    if path != [] {
      var k := path[0];
      UpdateKeepsElemOffsets(es[k].node.es, path[1..], inner);
      assert Update(es, path, inner)[..k] == es[..k];
    }
  }

  /** The chain tracks the updated tree once it is in sync with the new inner body. */
  lemma TracksUpdated(chain: seq<Mut>, d: Doc, es: seq<Element>, path: seq<nat>, inner: seq<Element>)
    requires ValidPath(es, path) && ChildOffsets(chain, es, path)
    requires InSync(chain, d, FramesOf(es, path), EncodeList(inner))
    ensures Tracks(chain, d, Update(es, path, inner), path)
  {
    hide InSync, FramesOf, EncodeList;
    UpdateKeepsFrames(es, path, inner);
    UpdateKeepsElemOffsets(es, path, inner);
  }

  /** Where the innermost document starts within its allocation. */
  function Base(es: seq<Element>, path: seq<nat>): nat
    requires ValidPath(es, path)
  {
    COOKIE + Offsets(FramesOf(es, path), 0)[|path|]
  }

  /** The iterator to element `k` of the innermost document. */
  function CursorAt(buf: array<byte>, es: seq<Element>, path: seq<nat>, k: nat): Cursor
    requires ValidPath(es, path) && k <= |Inner(es, path)|
  {
    Cursor(buf, IterFor(Inner(es, path), k, Base(es, path)))
  }

  lemma UpdateKeepsBase(es: seq<Element>, path: seq<nat>, inner: seq<Element>)
    requires ValidPath(es, path)
    ensures ValidPath(Update(es, path, inner), path)
    ensures Base(Update(es, path, inner), path) == Base(es, path)
    ensures Inner(Update(es, path, inner), path) == inner
  {
    hide FramesOf;
    UpdateKeepsFrames(es, path, inner);
  }

  /** The bytes of the innermost document lie in memory where its mutator points. */
  lemma InnerHeld(chain: seq<Mut>, d: Doc, es: seq<Element>, path: seq<nat>)
    requires Tracks(chain, d, es, path)
    ensures Holds(d.buf[..], Base(es, path), Inner(es, path))
    ensures |EncodeDoc(Inner(es, path))| <= INT32_MAX
    ensures |chain| == |path| + 1 && chain[|path|].data == Ptr(d.buf, Base(es, path))
    ensures AsInt32(ReadU32le(d.buf[..][Base(es, path)..])) == |EncodeDoc(Inner(es, path))|
  {
    hide Wrap, FramesOf, EncodeList, EncodeDoc, InSync, Offsets, Sizes;
    var fs, body := FramesOf(es, path), EncodeList(Inner(es, path));
    BareIsDoc(Inner(es, path));
    BodyHeld(chain, d, fs, body);
  }

  lemma BodyHeld(chain: seq<Mut>, d: Doc, fs: seq<Frame>, body: seq<byte>)
    requires InSync(chain, d, fs, body)
    ensures |chain| == |fs| + 1
    ensures var base := COOKIE + Offsets(fs, 0)[|fs|];
      && base + |body| + 5 <= d.buf.Length && |body| + 5 <= INT32_MAX
      && d.buf[..][base..base + |body| + 5] == Wrap([], body)
      && chain[|fs|].data == Ptr(d.buf, base)
      && ReadU32le(d.buf[..][base..]) == |body| + 5
  {
    hide Wrap, WrapSize, Offsets, Sizes, Aligned, HeadersAre, ReadU32le;
    SyncedIsAligned(chain, d, fs, body);
    HeaderRead(chain, d, Offsets(fs, 0), Sizes(fs, |body|), |fs|);
    InnermostHeld([], fs, body, []);
    BufferAlone(fs, body);
    SliceInside(d.buf[..], COOKIE, d.Contents(), Offsets(fs, 0)[|fs|], |body| + 5);
  }

  lemma BareIsDoc(es: seq<Element>)
    ensures Wrap([], EncodeList(es)) == EncodeDoc(es)
  {
  }

  lemma SliceInside(a: seq<byte>, lo: nat, b: seq<byte>, off: nat, n: nat)
    requires lo + |b| <= |a| && a[lo..lo + |b|] == b && off + n <= |b|
    ensures a[lo + off..lo + off + n] == b[off..off + n]
  {
    Slices(a, lo, lo + |b|, off, off + n);
  }

  /** The past-the-end position of the innermost document. */
  function EndCursor(buf: array<byte>, fs: seq<Frame>, body: seq<byte>): Cursor {
    Cursor(buf, At(COOKIE + Offsets(fs, 0)[|fs|] + |body| + 4, 0, 1))
  }

  /** `bson_end`. */
  method EndOf(mut: Mut, ghost chain: seq<Mut>, ghost d: Doc, ghost fs: seq<Frame>, ghost body: seq<byte>)
    returns (r: Cursor)
    requires InSync(chain, d, fs, body) && mut == chain[|fs|]
    ensures r == EndCursor(d.buf, fs, body)
  {
    hide InSync, Offsets, Wrap;
    BodyHeld(chain, d, fs, body);
    var size := ReadU32le(mut.data.buf[..][mut.data.at..]);
    r := Cursor(mut.data.buf, At(mut.data.at + size - 1, 0, 1));
  }

  lemma EndCursorIsAtEnd(buf: array<byte>, es: seq<Element>, path: seq<nat>)
    requires ValidPath(es, path)
    ensures EndCursor(buf, FramesOf(es, path), EncodeList(Inner(es, path)))
         == CursorAt(buf, es, path, |Inner(es, path)|)
  {
    hide EncodeList, FramesOf, Offsets;
    ElemOffsetsAscend(Inner(es, path), 0, |Inner(es, path)|);
  }

  // ----- strings

  /** `mlib_str_view_chopnulls`. */
  function Chop(s: seq<byte>): (r: seq<byte>)
    ensures r <= s && 0 !in r
  {
    s[..Strnlen(s, |s|)]
  }

  lemma ChopKeeps(s: seq<byte>)
    requires 0 !in s
    ensures Chop(s) == s
  {
  }
}
