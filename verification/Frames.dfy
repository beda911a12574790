/**
 The byte-level law behind every in-place edit of a BSON document
 (`_bson_splice_region` in `include/bson/mut.h`): cutting bytes out of the body
 of a deeply nested document and rewriting the length header of each document
 around the cut yields exactly the same nesting around the edited body.
 */
module Frames {
  import opened Bytes

  /** What surrounds a nested document within its parent's body, up to the parent's end. */
  datatype Frame = Frame(lead: seq<byte>, tail: seq<byte>)

  /** A document with the given body, wrapped in the frames of its ancestors, outermost first. */
  function Wrap(fs: seq<Frame>, body: seq<byte>): (b: seq<byte>)
    ensures |b| == WrapSize(fs, |body|)
  {
    if fs == [] then U32le(|body| + 5) + body + [0]
    else U32le(WrapSize(fs, |body|)) + fs[0].lead + Wrap(fs[1..], body) + fs[0].tail
  }

  function WrapSize(fs: seq<Frame>, n: nat): (size: nat)
    ensures n + 5 <= size
  {
    if fs == [] then n + 5
    else 4 + |fs[0].lead| + WrapSize(fs[1..], n) + |fs[0].tail|
  }

  /** Where the length headers lie when the outermost document starts at `base`. */
  function Offsets(fs: seq<Frame>, base: nat): (offs: seq<nat>)
    ensures |offs| == |fs| + 1 && offs[0] == base
  {
    [base] + if fs == [] then [] else Offsets(fs[1..], base + 4 + |fs[0].lead|)
  }

  /** The sizes of the nested documents when the innermost body has `n` bytes. */
  function Sizes(fs: seq<Frame>, n: nat): (ss: seq<nat>)
    ensures |ss| == |fs| + 1 && ss[0] == WrapSize(fs, n) && ss[|fs|] == n + 5
  {
    [WrapSize(fs, n)] + if fs == [] then [] else Sizes(fs[1..], n)
  }

  lemma Tails(fs: seq<Frame>, base: nat, n: nat)
    requires fs != []
    ensures Offsets(fs, base)[1..] == Offsets(fs[1..], base + 4 + |fs[0].lead|)
    ensures Offsets(fs, base)[|fs|] == Offsets(fs[1..], base + 4 + |fs[0].lead|)[|fs[1..]|]
    ensures Sizes(fs, n)[1..] == Sizes(fs[1..], n)
  {
  }

  lemma TailsAt(fs: seq<Frame>, base: nat, n: nat, i: nat)
    requires fs != [] && 0 < i <= |fs|
    ensures Offsets(fs, base)[i] == Offsets(fs[1..], base + 4 + |fs[0].lead|)[i - 1]
    ensures Sizes(fs, n)[i] == Sizes(fs[1..], n)[i - 1]
    ensures WrapSize(fs[1..], n) <= WrapSize(fs, n)
  {
  }

  /** Every size follows the body's size. */
  lemma {:induction false} SizesShift(fs: seq<Frame>, n: nat, m: nat)
    ensures forall i :: 0 <= i <= |fs| ==> Sizes(fs, n)[i] + m == Sizes(fs, m)[i] + n
    ensures WrapSize(fs, n) + m == WrapSize(fs, m) + n
  {
    if fs != [] {
      SizesShift(fs[1..], n, m);
      forall i | 0 <= i <= |fs|
        ensures Sizes(fs, n)[i] + m == Sizes(fs, m)[i] + n
      {
        if i > 0 {
          assert Sizes(fs, n)[i] == Sizes(fs[1..], n)[i - 1];
          assert Sizes(fs, m)[i] == Sizes(fs[1..], m)[i - 1];
        }
      }
    }
  }

  // ----- nesting

  /** Frames of real documents: a tag and a key terminator before, the parent's terminator after. */
  ghost predicate Proper(fs: seq<Frame>) {
    forall i :: 0 <= i < |fs| ==> 2 <= |fs[i].lead| && 1 <= |fs[i].tail|
  }

  /** Each document starts in the body of the one before it and ends before its terminator. */
  ghost predicate Nested(offs: seq<nat>, sizes: seq<nat>) {
    |offs| == |sizes| > 0 &&
    forall i {:trigger offs[i]} :: 0 <= i < |offs| ==>
      && 5 <= sizes[i] && offs[0] <= offs[i] && offs[i] + sizes[i] <= offs[0] + sizes[0]
      && (i > 0 ==> offs[i - 1] + 6 <= offs[i] && offs[i] + sizes[i] < offs[i - 1] + sizes[i - 1])
  }

  lemma NestedCons(off: nat, size: nat, offs: seq<nat>, sizes: seq<nat>)
    requires Nested(offs, sizes)
    requires off + 6 <= offs[0] && offs[0] + sizes[0] < off + size
    ensures Nested([off] + offs, [size] + sizes)
  {
    var offs', sizes' := [off] + offs, [size] + sizes;
    forall i | 0 <= i < |offs'|
      ensures 5 <= sizes'[i] && off <= offs'[i] && offs'[i] + sizes'[i] <= off + size
      ensures i > 0 ==> offs'[i - 1] + 6 <= offs'[i] && offs'[i] + sizes'[i] < offs'[i - 1] + sizes'[i - 1]
    {
      if i > 0 {
        assert offs'[i] == offs[i - 1] && sizes'[i] == sizes[i - 1];
        if i > 1 {
          assert offs'[i - 1] == offs[i - 2] && sizes'[i - 1] == sizes[i - 2];
        }
      }
    }
  }

  lemma {:induction false} FramesNested(fs: seq<Frame>, base: nat, n: nat)
    requires Proper(fs)
    ensures Nested(Offsets(fs, base), Sizes(fs, n))
  {
    if fs != [] {
      FramesNested(fs[1..], base + 4 + |fs[0].lead|, n);
      NestedCons(base, WrapSize(fs, n), Offsets(fs[1..], base + 4 + |fs[0].lead|), Sizes(fs[1..], n));
    }
  }

  lemma {:induction false} OffsetsAscend(fs: seq<Frame>, base: nat)
    ensures forall i :: 0 <= i <= |fs| ==> base <= Offsets(fs, base)[i] <= Offsets(fs, base)[|fs|]
  {
    if fs != [] {
      var base' := base + 4 + |fs[0].lead|;
      OffsetsAscend(fs[1..], base');
      forall i | 0 <= i <= |fs|
        ensures base <= Offsets(fs, base)[i] <= Offsets(fs, base)[|fs|]
      {
        assert Offsets(fs, base)[|fs|] == Offsets(fs[1..], base')[|fs| - 1];
        if i > 0 {
          assert Offsets(fs, base)[i] == Offsets(fs[1..], base')[i - 1];
        }
      }
    }
  }

  /** The bytes before the innermost header end the same whatever the body is. */
  lemma {:induction false} InnermostInside(fs: seq<Frame>, base: nat, n: nat)
    ensures Offsets(fs, base)[|fs|] + n + 5 <= base + WrapSize(fs, n)
  {
    if fs != [] {
      InnermostInside(fs[1..], base + 4 + |fs[0].lead|, n);
    }
  }

  // ----- rewriting the headers

  ghost predicate HeadersFit(b: seq<byte>, offs: seq<nat>) {
    forall i :: 0 <= i < |offs| ==> offs[i] + 4 <= |b|
  }

  /** `b` with the length header at every `offs[i]` rewritten, outermost first. */
  ghost function Reheader(b: seq<byte>, offs: seq<nat>, sizes: seq<int>): (r: seq<byte>)
    requires |offs| == |sizes| && HeadersFit(b, offs)
    ensures |r| == |b|
  {
    if offs == [] then b
    else
      var n := |offs| - 1;
      Patch(Reheader(b, offs[..n], sizes[..n]), offs[n], U32le(sizes[n]))
  }

  lemma {:induction false} ReheaderFirst(b: seq<byte>, offs: seq<nat>, sizes: seq<int>)
    requires |offs| == |sizes| > 0 && HeadersFit(b, offs)
    ensures Reheader(b, offs, sizes)
         == Reheader(Patch(b, offs[0], U32le(sizes[0])), offs[1..], sizes[1..])
  {
    var n := |offs| - 1;
    if n == 0 {
      assert Reheader(b, offs[..0], sizes[..0]) == b;
    } else {
      ReheaderFirst(b, offs[..n], sizes[..n]);
      assert offs[..n][1..] == offs[1..][..n - 1];
      assert sizes[..n][1..] == sizes[1..][..n - 1];
    }
  }

  // ----- the splice law

  lemma PatchBeforeSplice(
      p: seq<byte>, h: seq<byte>, h': seq<byte>, m: seq<byte>, pos: nat, nDelete: nat, ins: seq<byte>)
    requires |h| == |h'| && |p| + |h| <= pos && pos + nDelete <= |p| + |h| + |m|
    ensures Patch(Splice(p + h + m, pos, nDelete, ins), |p|, h') == Splice(p + h' + m, pos, nDelete, ins)
  {
  }

  lemma SpliceMiddle(p: seq<byte>, body: seq<byte>, q: seq<byte>, rel: nat, nDelete: nat, ins: seq<byte>)
    requires rel + nDelete <= |body|
    ensures Splice(p + body + q, |p| + rel, nDelete, ins) == p + Splice(body, rel, nDelete, ins) + q
  {
  }

  lemma Regroup(p: seq<byte>, a: seq<byte>, b: seq<byte>, c: seq<byte>, d: seq<byte>, q: seq<byte>)
    ensures p + (a + b + c + d) + q == p + a + (b + c + d + q)
    ensures p + (a + b + c + d) + q == (p + a + b) + c + (d + q)
  {
  }

  /** A document in a buffer with other bytes before and after it. */
  function Buffer(pre: seq<byte>, fs: seq<Frame>, body: seq<byte>, post: seq<byte>): (b: seq<byte>)
    ensures |b| == |pre| + WrapSize(fs, |body|) + |post|
  {
    pre + Wrap(fs, body) + post
  }

  /** Where byte `rel` of the innermost body lies. */
  function BodyPos(fs: seq<Frame>, base: nat, rel: nat): nat {
    Offsets(fs, base)[|fs|] + 4 + rel
  }

  lemma BodyInBounds(
      pre: seq<byte>, fs: seq<Frame>, body: seq<byte>, post: seq<byte>, rel: nat, nDelete: nat, ins: seq<byte>)
    requires rel + nDelete <= |body|
    ensures var pos := BodyPos(fs, |pre|, rel);
      var b := Buffer(pre, fs, body, post);
      && |pre| + 4 <= pos && pos + nDelete <= |b|
      && HeadersFit(Splice(b, pos, nDelete, ins), Offsets(fs, |pre|))
  {
    InnermostInside(fs, |pre|, |body|);
    OffsetsAscend(fs, |pre|);
  }

  /** What a splice leaves in the buffer: bytes replaced in place, then every header rewritten. */
  ghost function Edited(
      pre: seq<byte>, fs: seq<Frame>, body: seq<byte>, post: seq<byte>,
      rel: nat, nDelete: nat, ins: seq<byte>): seq<byte>
    requires rel + nDelete <= |body|
  {
    BodyInBounds(pre, fs, body, post, rel, nDelete, ins);
    var b := Splice(Buffer(pre, fs, body, post), BodyPos(fs, |pre|, rel), nDelete, ins);
    Reheader(b, Offsets(fs, |pre|), Sizes(fs, |body| - nDelete + |ins|))
  }

  /**
   The splice law, for any nesting depth: the edited buffer is the same frames
   around the edited body.
   */
  lemma {:induction false} SpliceLaw(
      pre: seq<byte>, fs: seq<Frame>, body: seq<byte>, post: seq<byte>,
      rel: nat, nDelete: nat, ins: seq<byte>)
    requires rel + nDelete <= |body|
    ensures Edited(pre, fs, body, post, rel, nDelete, ins)
         == Buffer(pre, fs, Splice(body, rel, nDelete, ins), post)
    decreases |fs|
  {
    hide *;
    if fs == [] {
      EditedInnermost(pre, body, post, rel, nDelete, ins);
    } else {
      var body' := Splice(body, rel, nDelete, ins);
      var pre' := pre + U32le(WrapSize(fs, |body'|)) + fs[0].lead;
      EditedOutermost(pre, fs, body, post, rel, nDelete, ins);
      SpliceLaw(pre', fs[1..], body, fs[0].tail + post, rel, nDelete, ins);
      BufferOutermost(pre, fs, body', post);
    }
  }

  lemma BufferOutermost(pre: seq<byte>, fs: seq<Frame>, body: seq<byte>, post: seq<byte>)
    requires fs != []
    ensures Buffer(pre, fs, body, post)
         == Buffer(pre + U32le(WrapSize(fs, |body|)) + fs[0].lead, fs[1..], body, fs[0].tail + post)
  {
    Regroup(pre, U32le(WrapSize(fs, |body|)), fs[0].lead, Wrap(fs[1..], body), fs[0].tail, post);
  }

  /** One level of the law: the outermost header is final, what remains is the child's edit. */
  lemma EditedOutermost(
      pre: seq<byte>, fs: seq<Frame>, body: seq<byte>, post: seq<byte>,
      rel: nat, nDelete: nat, ins: seq<byte>)
    requires rel + nDelete <= |body| && fs != []
    ensures var pre' := pre + U32le(WrapSize(fs, |body| - nDelete + |ins|)) + fs[0].lead;
      Edited(pre, fs, body, post, rel, nDelete, ins)
      == Edited(pre', fs[1..], body, fs[0].tail + post, rel, nDelete, ins)
  {
    hide Splice, Patch, Reheader, U32le, Buffer;
    var n := |body| - nDelete + |ins|;
    var pre' := pre + U32le(WrapSize(fs, n)) + fs[0].lead;
    var pos := BodyPos(fs, |pre|, rel);
    Tails(fs, |pre|, n);
    assert pos == BodyPos(fs[1..], |pre'|, rel);
    BodyInBounds(pre, fs, body, post, rel, nDelete, ins);
    BodyInBounds(pre', fs[1..], body, fs[0].tail + post, rel, nDelete, ins);
    PatchOutermost(pre, fs, body, post, WrapSize(fs, n), pos, nDelete, ins);
    ReheaderFirst(Splice(Buffer(pre, fs, body, post), pos, nDelete, ins), Offsets(fs, |pre|), Sizes(fs, n));
  }

  lemma PatchOutermost(
      pre: seq<byte>, fs: seq<Frame>, body: seq<byte>, post: seq<byte>,
      size': int, pos: nat, nDelete: nat, ins: seq<byte>)
    requires fs != []
    requires |pre| + 4 <= pos && pos + nDelete <= |Buffer(pre, fs, body, post)|
    ensures var pre' := pre + U32le(size') + fs[0].lead;
      && pos + nDelete <= |Buffer(pre', fs[1..], body, fs[0].tail + post)|
      && Patch(Splice(Buffer(pre, fs, body, post), pos, nDelete, ins), |pre|, U32le(size'))
      == Splice(Buffer(pre', fs[1..], body, fs[0].tail + post), pos, nDelete, ins)
  {
    var h, h' := U32le(WrapSize(fs, |body|)), U32le(size');
    var lead, doc, tail := fs[0].lead, Wrap(fs[1..], body), fs[0].tail;
    Regroup(pre, h, lead, doc, tail, post);
    Regroup(pre, h', lead, doc, tail, post);
    PatchBeforeSplice(pre, h, h', lead + doc + tail + post, pos, nDelete, ins);
  }

  lemma EditedInnermost(pre: seq<byte>, body: seq<byte>, post: seq<byte>, rel: nat, nDelete: nat, ins: seq<byte>)
    requires rel + nDelete <= |body|
    ensures Edited(pre, [], body, post, rel, nDelete, ins)
         == Buffer(pre, [], Splice(body, rel, nDelete, ins), post)
  {
    hide Splice, Patch, Reheader;
    var body' := Splice(body, rel, nDelete, ins);
    var pos := |pre| + 4 + rel;
    assert BodyPos([], |pre|, rel) == pos;
    assert Offsets([], |pre|) == [|pre|] && Sizes([], |body'|) == [|body'| + 5];
    BodyInBounds(pre, [], body, post, rel, nDelete, ins);
    ReheaderOne(Splice(Buffer(pre, [], body, post), pos, nDelete, ins), |pre|, |body'| + 5);
    SpliceBare(pre, U32le(|body| + 5), U32le(|body'| + 5), body, post, rel, nDelete, ins);
  }

  lemma SpliceBare(
      pre: seq<byte>, h: seq<byte>, h': seq<byte>, body: seq<byte>, post: seq<byte>,
      rel: nat, nDelete: nat, ins: seq<byte>)
    requires rel + nDelete <= |body| && |h| == |h'| == 4
    ensures Patch(Splice(pre + (h + body + [0]) + post, |pre| + 4 + rel, nDelete, ins), |pre|, h')
         == pre + (h' + Splice(body, rel, nDelete, ins) + [0]) + post
  {
    hide Splice, Patch;
    PatchBeforeSplice(pre, h, h', body + ([0] + post), |pre| + 4 + rel, nDelete, ins);
    SpliceMiddle(pre + h', body, [0] + post, rel, nDelete, ins);
    assert pre + (h + body + [0]) + post == pre + h + (body + ([0] + post));
    assert pre + h' + (body + ([0] + post)) == (pre + h') + body + ([0] + post);
  }

  lemma ReheaderOne(b: seq<byte>, off: nat, size: int)
    requires off + 4 <= |b|
    ensures Reheader(b, [off], [size]) == Patch(b, off, U32le(size))
  {
    assert [off][..0] == [] && [size][..0] == [];
    assert Reheader(b, [], []) == b;
  }

  // ----- reading the headers back, and overwriting bytes of the body

  /** The length headers found at `offs` are `sizes`, and the documents there are nested. */
  ghost predicate HeadersAre(b: seq<byte>, offs: seq<nat>, sizes: seq<nat>) {
    && Nested(offs, sizes) && offs[0] == 0 && sizes[0] == |b|
    && forall i {:trigger offs[i]} :: 0 <= i < |offs| ==> offs[i] + 4 <= |b| && ReadU32le(b[offs[i]..]) == sizes[i]
  }

  lemma {:induction false} WrapHeaders(pre: seq<byte>, fs: seq<Frame>, body: seq<byte>, post: seq<byte>, i: nat)
    requires i <= |fs| && WrapSize(fs, |body|) <= INT32_MAX
    ensures var off := Offsets(fs, |pre|)[i];
      var b := Buffer(pre, fs, body, post);
      off + 4 <= |b| && ReadU32le(b[off..]) == Sizes(fs, |body|)[i]
    decreases |fs|
  {
    hide Buffer, Wrap, WrapSize, Offsets, Sizes;
    if i == 0 {
      FirstHeader(pre, fs, body, post);
    } else {
      TailsAt(fs, |pre|, |body|, i);
      BufferOutermost(pre, fs, body, post);
      var pre' := pre + U32le(WrapSize(fs, |body|)) + fs[0].lead;
      WrapHeaders(pre', fs[1..], body, fs[0].tail + post, i - 1);
    }
  }

  lemma FirstHeader(pre: seq<byte>, fs: seq<Frame>, body: seq<byte>, post: seq<byte>)
    requires WrapSize(fs, |body|) <= INT32_MAX
    ensures ReadU32le(Buffer(pre, fs, body, post)[|pre|..]) == WrapSize(fs, |body|)
  {
    hide Wrap, ReadU32le;
    var n := WrapSize(fs, |body|);
    var rest := WrapRest(fs, body);
    DropBefore(pre, U32le(n), rest, post);
    ReadWriteU32(n, rest + post);
  }

  lemma WrapRest(fs: seq<Frame>, body: seq<byte>) returns (rest: seq<byte>)
    ensures Wrap(fs, body) == U32le(WrapSize(fs, |body|)) + rest
  {
    if fs == [] {
      rest := body + [0];
    } else {
      rest := fs[0].lead + Wrap(fs[1..], body) + fs[0].tail;
    }
  }

  lemma DropBefore(pre: seq<byte>, h: seq<byte>, rest: seq<byte>, post: seq<byte>)
    ensures (pre + (h + rest) + post)[|pre|..] == h + (rest + post)
  {
  }

  lemma WrappedHeadersAre(fs: seq<Frame>, body: seq<byte>)
    requires Proper(fs) && WrapSize(fs, |body|) <= INT32_MAX
    ensures HeadersAre(Wrap(fs, body), Offsets(fs, 0), Sizes(fs, |body|))
  {
    var b := Wrap(fs, body);
    FramesNested(fs, 0, |body|);
    assert Buffer([], fs, body, []) == b;
    forall i | 0 <= i <= |fs|
      ensures Offsets(fs, 0)[i] + 4 <= |b| && ReadU32le(b[Offsets(fs, 0)[i]..]) == Sizes(fs, |body|)[i]
    {
      WrapHeaders([], fs, body, [], i);
    }
  }

  /** Overwriting bytes of the innermost body changes nothing else. */
  lemma {:induction false} PatchInBody(
      pre: seq<byte>, fs: seq<Frame>, body: seq<byte>, post: seq<byte>, rel: nat, w: seq<byte>)
    requires rel + |w| <= |body|
    ensures BodyPos(fs, |pre|, rel) + |w| <= |Buffer(pre, fs, body, post)|
    ensures Patch(Buffer(pre, fs, body, post), BodyPos(fs, |pre|, rel), w)
         == Buffer(pre, fs, Patch(body, rel, w), post)
    decreases |fs|
  {
    hide Buffer, Wrap, Patch, WrapSize, Offsets;
    InnermostInside(fs, |pre|, |body|);
    if fs == [] {
      PatchInBareBody(pre, body, post, rel, w);
    } else {
      var pre' := pre + U32le(WrapSize(fs, |body|)) + fs[0].lead;
      TailsAt(fs, |pre|, |body|, |fs|);
      BufferOutermost(pre, fs, body, post);
      BufferOutermost(pre, fs, Patch(body, rel, w), post);
      PatchInBody(pre', fs[1..], body, fs[0].tail + post, rel, w);
    }
  }

  lemma PatchInBareBody(pre: seq<byte>, body: seq<byte>, post: seq<byte>, rel: nat, w: seq<byte>)
    requires rel + |w| <= |body|
    ensures BodyPos([], |pre|, rel) == |pre| + 4 + rel
    ensures Patch(Buffer(pre, [], body, post), |pre| + 4 + rel, w) == Buffer(pre, [], Patch(body, rel, w), post)
  {
    var h := U32le(|body| + 5);
    SpliceMiddle(pre + h, body, [0] + post, rel, |w|, w);
    BareBuffer(pre, body, post);
    BareBuffer(pre, Patch(body, rel, w), post);
  }

  lemma BareBuffer(pre: seq<byte>, body: seq<byte>, post: seq<byte>)
    ensures Buffer(pre, [], body, post) == pre + U32le(|body| + 5) + body + ([0] + post)
  {
  }

  /** The innermost document lies in the buffer at the last offset. */
  lemma {:induction false} InnermostHeld(pre: seq<byte>, fs: seq<Frame>, body: seq<byte>, post: seq<byte>)
    ensures var off := Offsets(fs, |pre|)[|fs|];
      var b := Buffer(pre, fs, body, post);
      off + |body| + 5 <= |b| && b[off..off + |body| + 5] == Wrap([], body)
    decreases |fs|
  {
    hide Buffer, Wrap, WrapSize, Offsets;
    InnermostInside(fs, |pre|, |body|);
    if fs == [] {
      BufferMiddle(pre, body, post);
    } else {
      var pre' := pre + U32le(WrapSize(fs, |body|)) + fs[0].lead;
      TailsAt(fs, |pre|, |body|, |fs|);
      BufferOutermost(pre, fs, body, post);
      InnermostHeld(pre', fs[1..], body, fs[0].tail + post);
    }
  }

  lemma BufferMiddle(pre: seq<byte>, body: seq<byte>, post: seq<byte>)
    ensures Buffer(pre, [], body, post)[|pre|..|pre| + |body| + 5] == Wrap([], body)
  {
  }
}
