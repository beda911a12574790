/**
 The splice at the level of nested bodies: after `_bson_splice_region` the whole
 chain of mutators is in sync with the same frames around the edited body.
 */
module Sync {
  import opened Bytes
  import opened Frames
  import opened Storage
  import opened Values
  import opened Mutator
  import Int = Integer

  lemma SyncedIsAligned(chain: seq<Mut>, d: Doc, fs: seq<Frame>, body: seq<byte>)
    requires InSync(chain, d, fs, body)
    ensures Aligned(chain, d, Offsets(fs, 0), Sizes(fs, |body|))
    ensures |d.Contents()| == WrapSize(fs, |body|) == d.Size() <= d.buf.Length - COOKIE
  {
    hide Wrap, HeadersAre, ReadU32le, Placed, Linked;
    WrappedHeadersAre(fs, body);
  }

  /** What has to be re-established for a chain to be in sync again after a write. */
  lemma RestoreSync(chain: seq<Mut>, d: Doc, fs: seq<Frame>, body: seq<byte>)
    requires Linked(chain, d) && |chain| == |fs| + 1 && Proper(fs) && Placed(chain, d.buf, Offsets(fs, 0))
    requires 9 <= d.buf.Length <= INT32_MAX && d.buf[..][..COOKIE] == U32le(d.buf.Length - COOKIE)
    requires COOKIE + WrapSize(fs, |body|) <= d.buf.Length
    requires d.buf[..][COOKIE..COOKIE + WrapSize(fs, |body|)] == Wrap(fs, body)
    requires d.empty.Length == 9 && (d.empty == d.buf || d.empty[..] == EMPTY_IMAGE)
    ensures InSync(chain, d, fs, body)
  {
    hide Wrap, Linked, Placed;
    CookieRead(d);
    SizeRead(d, fs, body);
    if d.empty == d.buf {
      ImageRestored(d.buf[..], fs, body);
    }
  }

  lemma CookieRead(d: Doc)
    requires 9 <= d.buf.Length <= INT32_MAX && d.buf[..][..COOKIE] == U32le(d.buf.Length - COOKIE)
    ensures d.Capacity() == d.buf.Length - COOKIE
  {
    var rest := d.buf[..][COOKIE..];
    ReadWriteU32(d.buf.Length - COOKIE, rest);
    assert d.buf[..] == d.buf[..][..COOKIE] + rest;
  }

  lemma SizeRead(d: Doc, fs: seq<Frame>, body: seq<byte>)
    requires 9 <= d.buf.Length <= INT32_MAX && COOKIE + WrapSize(fs, |body|) <= d.buf.Length
    requires d.buf[..][COOKIE..COOKIE + WrapSize(fs, |body|)] == Wrap(fs, body)
    ensures d.Size() == WrapSize(fs, |body|)
  {
    hide Wrap;
    var b, mem := Wrap(fs, body), d.buf[..];
    FirstHeader([], fs, body, []);
    assert Buffer([], fs, body, [])[0..] == b;
    assert forall k :: 0 <= k < 4 ==> mem[COOKIE..][k] == mem[COOKIE..COOKIE + |b|][k];
  }

  /** A document that fits in five bytes is the empty one. */
  lemma ImageRestored(mem: seq<byte>, fs: seq<Frame>, body: seq<byte>)
    requires |mem| == 9 && mem[..COOKIE] == U32le(5) && COOKIE + WrapSize(fs, |body|) <= 9
    requires mem[COOKIE..COOKIE + WrapSize(fs, |body|)] == Wrap(fs, body)
    ensures mem == EMPTY_IMAGE
  {
    assert fs == [] && body == [];
    assert mem == mem[..COOKIE] + mem[COOKIE..9];
    assert U32le(5) == [5, 0, 0, 0];
  }

  lemma BufferAlone(fs: seq<Frame>, body: seq<byte>)
    ensures Buffer([], fs, body, []) == Wrap(fs, body)
  {
    hide Wrap;
  }

  /** The bytes of a successful splice are the frames around the edited body. */
  lemma SplicedIsWrapped(fs: seq<Frame>, body: seq<byte>, rel: nat, nDelete: nat, ins: seq<byte>)
    requires rel + nDelete <= |body|
    ensures var b, pos := Wrap(fs, body), BodyPos(fs, 0, rel);
      var offs, sizes := Offsets(fs, 0), Sizes(fs, |body|);
      && pos + nDelete <= |b| && HeadersFit(Splice(b, pos, nDelete, ins), offs)
      && Reheader(Splice(b, pos, nDelete, ins), offs, Bump(sizes, |ins| - nDelete))
      == Wrap(fs, Splice(body, rel, nDelete, ins))
      && |b| - nDelete + |ins| == WrapSize(fs, |Splice(body, rel, nDelete, ins)|)
  {
    hide Wrap, WrapSize, Reheader, Splice, Edited, Buffer, BodyPos, Offsets, Sizes, HeadersFit;
    var n := |body| - nDelete + |ins|;
    var body' := Splice(body, rel, nDelete, ins);
    BufferAlone(fs, body);
    BufferAlone(fs, body');
    BodyInBounds([], fs, body, [], rel, nDelete, ins);
    SpliceLaw([], fs, body, [], rel, nDelete, ins);
    EditedAlone(fs, body, rel, nDelete, ins);
    SizesShift(fs, n, |body|);
    assert Bump(Sizes(fs, |body|), |ins| - nDelete) == Sizes(fs, n);
  }

  lemma EditedAlone(fs: seq<Frame>, body: seq<byte>, rel: nat, nDelete: nat, ins: seq<byte>)
    requires rel + nDelete <= |body|
    requires BodyPos(fs, 0, rel) + nDelete <= |Wrap(fs, body)|
    requires HeadersFit(Splice(Wrap(fs, body), BodyPos(fs, 0, rel), nDelete, ins), Offsets(fs, 0))
    ensures Edited([], fs, body, [], rel, nDelete, ins)
         == Reheader(Splice(Wrap(fs, body), BodyPos(fs, 0, rel), nDelete, ins), Offsets(fs, 0),
              Sizes(fs, |body| - nDelete + |ins|))
  {
    hide Wrap, Reheader, Splice, Buffer, BodyPos, Offsets, Sizes, HeadersFit;
    BufferAlone(fs, body);
  }

  method SpliceBody(
      mut: Mut, position: Ptr, nDelete: Int.size_t, nInsert: Int.size_t, insertFrom: Option<seq<byte>>,
      ghost chain: seq<Mut>, ghost d: Doc, ghost fs: seq<Frame>, ghost body: seq<byte>, ghost rel: nat)
    returns (r: Option<Ptr>)
    requires InSync(chain, d, fs, body) && mut == chain[|chain| - 1]
    requires rel + nDelete <= |body| && position == Ptr(d.buf, COOKIE + BodyPos(fs, 0, rel))
    requires insertFrom.Some? ==> |insertFrom.value| == nInsert
    modifies chain, d`buf, d.buf
    ensures d.buf == old(d.buf) || (fresh(d.buf) && old(d.buf)[..] == old(d.buf[..]))
    ensures r.None? ==> InSync(chain, d, fs, body) && d.buf == old(d.buf) && d.buf[..] == old(d.buf[..])
    ensures r.Some? ==>
      && r.value == Ptr(d.buf, position.at)
      && InSync(chain, d, fs, Splice(body, rel, nDelete, Filling(insertFrom, nInsert)))
    ensures WrapSize(fs, |body| - nDelete + nInsert) <= old(d.Capacity()) ==> r.Some? && d.buf == old(d.buf)
  {
    hide Wrap, Reheader, Splice, Aligned, HeadersFit, Filling, Proper, ReadU32le, Linked;
    ghost var offs, sizes := Offsets(fs, 0), Sizes(fs, |body|);
    ghost var b := d.Contents();
    SyncedIsAligned(chain, d, fs, body);
    InnermostInside(fs, 0, |body|);
    SizesShift(fs, |body| - nDelete + nInsert, |body|);
    SplicedIsWrapped(fs, body, rel, nDelete, Filling(insertFrom, nInsert));
    assert position.at - COOKIE + nDelete < offs[|fs|] + sizes[|fs|];
    assert |b| - nDelete + nInsert == WrapSize(fs, |body| - nDelete + nInsert);
    r := SpliceRegion(mut, position, nDelete, nInsert, insertFrom, chain, d, offs, sizes);
    if r.Some? {
      RestoreSync(chain, d, fs, Splice(body, rel, nDelete, Filling(insertFrom, nInsert)));
    }
  }

  /** A write into the body of the innermost document keeps the chain in sync. */
  lemma OverwriteBody(
      before: seq<byte>, chain: seq<Mut>, d: Doc, fs: seq<Frame>, body: seq<byte>, rel: nat, w: seq<byte>)
    requires Linked(chain, d) && |chain| == |fs| + 1 && Proper(fs) && Placed(chain, d.buf, Offsets(fs, 0))
    requires 9 <= |before| <= INT32_MAX && before[..COOKIE] == U32le(|before| - COOKIE)
    requires COOKIE + WrapSize(fs, |body|) <= |before|
    requires before[COOKIE..COOKIE + WrapSize(fs, |body|)] == Wrap(fs, body)
    requires rel + |w| <= |body| && COOKIE + BodyPos(fs, 0, rel) + |w| <= |before|
    requires d.buf[..] == Patch(before, COOKIE + BodyPos(fs, 0, rel), w)
    requires d.empty.Length == 9 && (d.empty == d.buf || d.empty[..] == EMPTY_IMAGE)
    ensures InSync(chain, d, fs, Patch(body, rel, w))
  {
    hide Wrap, WrapSize, Linked, Placed, Patch, BodyPos, InSync, Proper, Offsets;
    var body' := Patch(body, rel, w);
    OverwrittenBytes(before, d.buf[..], fs, body, rel, w);
    assert |body'| == |body| && |before| == d.buf.Length;
    assert d.buf[..][..COOKIE] == U32le(d.buf.Length - COOKIE);
    assert COOKIE + WrapSize(fs, |body'|) <= d.buf.Length;
    assert d.buf[..][COOKIE..COOKIE + WrapSize(fs, |body'|)] == Wrap(fs, body');
    RestoreSync(chain, d, fs, body');
  }

  lemma OverwrittenBytes(
      before: seq<byte>, after: seq<byte>, fs: seq<Frame>, body: seq<byte>, rel: nat, w: seq<byte>)
    requires COOKIE + WrapSize(fs, |body|) <= |before|
    requires before[COOKIE..COOKIE + WrapSize(fs, |body|)] == Wrap(fs, body)
    requires rel + |w| <= |body| && COOKIE + BodyPos(fs, 0, rel) + |w| <= |before|
    requires after == Patch(before, COOKIE + BodyPos(fs, 0, rel), w)
    ensures |after| == |before| && after[..COOKIE] == before[..COOKIE]
    ensures after[COOKIE..COOKIE + WrapSize(fs, |body|)] == Wrap(fs, Patch(body, rel, w))
  {
    hide Wrap, WrapSize, Patch, Buffer, BodyPos;
    PatchInBody([], fs, body, [], rel, w);
    BufferAlone(fs, body);
    BufferAlone(fs, Patch(body, rel, w));
    PatchWithin(before, COOKIE, COOKIE + WrapSize(fs, |body|), COOKIE + BodyPos(fs, 0, rel), w);
  }

  lemma CapacityBound(chain: seq<Mut>, d: Doc, fs: seq<Frame>, body: seq<byte>)
    requires InSync(chain, d, fs, body)
    ensures d.buf.Length >= 9 && WrapSize(fs, |body|) <= d.Capacity() <= INT32_MAX
  {
    SyncedIsAligned(chain, d, fs, body);
  }

  lemma SyncedBytes(chain: seq<Mut>, d: Doc, fs: seq<Frame>, body: seq<byte>)
    requires InSync(chain, d, fs, body)
    ensures Linked(chain, d) && |chain| == |fs| + 1 && Proper(fs) && Placed(chain, d.buf, Offsets(fs, 0))
    ensures 9 <= d.buf.Length <= INT32_MAX && d.buf[..][..COOKIE] == U32le(d.buf.Length - COOKIE)
    ensures COOKIE + WrapSize(fs, |body|) <= d.buf.Length
    ensures d.buf[..][COOKIE..COOKIE + WrapSize(fs, |body|)] == Wrap(fs, body)
    ensures d.empty.Length == 9 && d.empty[..] == EMPTY_IMAGE
  {
    hide Wrap, Linked, Placed;
    CookieBytes(d);
    assert |d.Contents()| == WrapSize(fs, |body|);
    assert |d.empty[..]| == 9;
  }
}
