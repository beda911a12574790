/**
 Edits of existing elements (`include/bson/mut.h`): replacing a key, splicing and
 erasing ranges of elements.
 */
module Ranges {
  import opened Bytes
  import opened Frames
  import opened Document
  import opened Iteration
  import opened Reading
  import opened Values
  import opened Storage
  import opened Mutator
  import opened Sync
  import opened Tracking
  import Int = Integer

  /** Room left over after the document grows to `n` bytes. */
  lemma SplicedSize(es: seq<Element>, path: seq<nat>, nDelete: nat, nInsert: nat)
    requires ValidPath(es, path) && nDelete <= |EncodeList(Inner(es, path))|
    ensures WrapSize(FramesOf(es, path), |EncodeList(Inner(es, path))| - nDelete + nInsert)
         == |EncodeDoc(es)| - nDelete + nInsert
  {
    hide WrapSize, FramesOf, EncodeList, EncodeDoc;
    EncodeIsWrapped(es, path);
    var n := |EncodeList(Inner(es, path))|;
    SizesShift(FramesOf(es, path), n - nDelete + nInsert, n);
  }

  // ----- keys

  function Rekeyed(inner: seq<Element>, k: nat, key: seq<byte>): seq<Element>
    requires k < |inner|
  {
    inner[k := inner[k].(key := key)]
  }

  lemma RekeyedCursor(buf: array<byte>, es: seq<Element>, path: seq<nat>, k: nat, key: seq<byte>)
    requires ValidPath(es, path) && k < |Inner(es, path)|
    ensures var inner := Inner(es, path);
      var es' := Update(es, path, Rekeyed(inner, k, key));
      ValidPath(es', path) && Inner(es', path) == Rekeyed(inner, k, key) &&
      var old_, new_ := CursorAt(buf, es, path, k), CursorAt(buf, es', path, k);
      && new_.buf == buf && new_.it.pos == old_.it.pos && new_.it.keylen == |key|
      && new_.it.rlen + |inner[k].key| == old_.it.rlen + |key|
  {
    hide EncodeList, Base;
    var inner := Inner(es, path);
    UpdateKeepsBase(es, path, Rekeyed(inner, k, key));
    RekeyIsSplice(inner, k, key);
    assert Rekeyed(inner, k, key)[..k] == inner[..k];
  }

  /** The remaining length after a size change, in checked arithmetic. */
  function NewRlen(rlen: Int.int64, diff: Int.int64): Option<int> {
    var r := Int.CastPositiveInt32(Int.Add(Int.FromI64(rlen), Int.FromI64(diff), false));
    if r.flags == {} then Some(r.i64) else None
  }

  lemma NewRlenExact(rlen: Int.int64, diff: Int.int64)
    requires 0 <= rlen <= INT32_MAX
    ensures NewRlen(rlen, diff) ==
      if 1 <= rlen as int + diff as int <= INT32_MAX then Some(rlen as int + diff as int) else None
  {
  }

  /** `_bson_set_key` on the innermost body: the key bytes of the element at `rel` are replaced. */
  method SetKeyBytes(
      mut: Mut, pos: Cursor, rawKey: seq<byte>,
      ghost chain: seq<Mut>, ghost d: Doc, ghost fs: seq<Frame>, ghost body: seq<byte>, ghost rel: nat)
    returns (r: Cursor, done: bool)
    requires InSync(chain, d, fs, body) && mut == chain[|fs|]
    requires pos.buf == d.buf && pos.it.At? && pos.it.pos == COOKIE + BodyPos(fs, 0, rel)
    requires rel + 1 + pos.it.keylen <= |body| && pos.it.rlen == |body| - rel + 1 && |rawKey| <= Int.INT64_MAX
    modifies chain, d`buf, d.buf
    ensures d.buf == old(d.buf) || (fresh(d.buf) && old(d.buf)[..] == old(d.buf[..]))
    ensures !done ==>
      && InSync(chain, d, fs, body) && d.buf == old(d.buf) && d.buf[..] == old(d.buf[..])
      && r == EndCursor(d.buf, fs, body)
    ensures done ==>
      && InSync(chain, d, fs, Splice(body, rel + 1, pos.it.keylen, Chop(rawKey)))
      && r == Cursor(d.buf, At(pos.it.pos, |Chop(rawKey)|, pos.it.rlen - pos.it.keylen + |Chop(rawKey)|))
    ensures WrapSize(fs, |body| - pos.it.keylen + |Chop(rawKey)|) <= old(d.Capacity()) ==>
      done && d.buf == old(d.buf)
  {
    hide InSync, WrapSize, Splice, Offsets, Chop, NewRlen, Wrap, ReadU32le;
    CapacityBound(chain, d, fs, body);
    var newKey := Chop(rawKey);
    var sizeDiff := |newKey| - pos.it.keylen;
    var newRlen := NewRlen(pos.it.rlen, sizeDiff);
    NewRlenExact(pos.it.rlen, sizeDiff);
    if newRlen.None? {
      r := EndOf(mut, chain, d, fs, body);
      return r, false;
    }
    BodyHeld(chain, d, fs, body);
    var iterOff := pos.it.pos - mut.data.at;
    var out := SpliceBody(
      mut, Ptr(pos.buf, pos.it.pos + 1), pos.it.keylen, |newKey|, Some(newKey), chain, d, fs, body, rel + 1);
    if out.None? {
      r := EndOf(mut, chain, d, fs, body);
      return r, false;
    }
    BodyHeld(chain, d, fs, Splice(body, rel + 1, pos.it.keylen, newKey));
    r := Cursor(mut.data.buf, At(mut.data.at + iterOff, |newKey|, newRlen.value));
    done := true;
  }

  /**
   `_bson_set_key`. The result is the past-the-end iterator exactly when the edit
   failed, and then nothing changed; otherwise element `k` has the new key, up to
   its first NUL, and the result refers to it.
   */
  method SetKey(
      mut: Mut, pos: Cursor, rawKey: seq<byte>,
      ghost chain: seq<Mut>, ghost d: Doc, ghost es: seq<Element>, ghost path: seq<nat>, ghost k: nat)
    returns (r: Cursor)
    requires Tracks(chain, d, es, path) && mut == chain[|path|]
    requires k < |Inner(es, path)| && pos == CursorAt(d.buf, es, path, k) && |rawKey| <= Int.INT64_MAX
    modifies chain, d`buf, d.buf
    ensures d.buf == old(d.buf) || (fresh(d.buf) && old(d.buf)[..] == old(d.buf[..]))
    ensures Stop(r.it) ==>
      && Tracks(chain, d, es, path) && d.buf == old(d.buf) && d.buf[..] == old(d.buf[..])
      && r == CursorAt(d.buf, es, path, |Inner(es, path)|)
    ensures !Stop(r.it) ==>
      RekeyedAt(r, chain, d, es, path, k, Chop(rawKey))
    ensures |EncodeDoc(es)| - |Inner(es, path)[k].key| + |Chop(rawKey)| <= old(d.Capacity()) ==>
      !Stop(r.it) && d.buf == old(d.buf)
  {
    hide InSync, EncodeDoc, EncodeList, WrapSize, Splice, Offsets, FramesOf, Chop, Base;
    ghost var inner := Inner(es, path);
    ghost var es' := Update(es, path, Rekeyed(inner, k, Chop(rawKey)));
    CursorFacts(chain, d, es, path, k);
    RekeyIsSplice(inner, k, Chop(rawKey));
    SplicedSize(es, path, |inner[k].key|, |Chop(rawKey)|);
    EndCursorIsAtEnd(d.buf, es, path);
    StopIsLast(d.buf, es, path, |inner|);
    var done;
    r, done := SetKeyBytes(mut, pos, rawKey, chain, d, FramesOf(es, path), EncodeList(inner), ElemOffset(inner, k) - 4);
    if done {
      TracksUpdated(chain, d, es, path, Rekeyed(inner, k, Chop(rawKey)));
      RekeyedCursor(d.buf, es, path, k, Chop(rawKey));
      CursorFacts(chain, d, es', path, k);
    }
  }

  ghost predicate RekeyedAt(
      r: Cursor, chain: seq<Mut>, d: Doc, es: seq<Element>, path: seq<nat>, k: nat, key: seq<byte>)
    requires ValidPath(es, path) && k < |Inner(es, path)|
    reads chain, d, d.buf, d.empty
  {
    var es' := Update(es, path, Rekeyed(Inner(es, path), k, key));
    && Tracks(chain, d, es', path) && Inner(es', path) == Rekeyed(Inner(es, path), k, key)
    && r == CursorAt(d.buf, es', path, k)
  }

  /** How a cursor relates to the mutator it belongs to. */
  lemma CursorFacts(chain: seq<Mut>, d: Doc, es: seq<Element>, path: seq<nat>, k: nat)
    requires Tracks(chain, d, es, path) && k <= |Inner(es, path)|
    ensures |chain| == |path| + 1 && chain[|path|].data == Ptr(d.buf, Base(es, path))
    ensures d.Valid() && d.Capacity() == d.buf.Length - COOKIE && CursorAt(d.buf, es, path, k).it.At?
    ensures |EncodeDoc(es)| == |d.Contents()| <= d.Capacity() <= INT32_MAX
    ensures |EncodeDoc(Inner(es, path))| <= |EncodeDoc(es)|
    ensures var inner := Inner(es, path);
      var it := CursorAt(d.buf, es, path, k).it;
      && it.pos == Base(es, path) + ElemOffset(inner, k)
      && it.pos == COOKIE + BodyPos(FramesOf(es, path), 0, ElemOffset(inner, k) - 4)
      && it.rlen == |EncodeList(inner)| - (ElemOffset(inner, k) - 4) + 1
      && 1 <= it.rlen == |EncodeDoc(inner)| - ElemOffset(inner, k) <= INT32_MAX
      && (k < |inner| ==> it.keylen == |inner[k].key| && it.keylen + 2 < it.rlen)
  {
    hide EncodeList, Offsets, FramesOf, Wrap;
    var inner := Inner(es, path);
    InnerHeld(chain, d, es, path);
    TracksContents(chain, d, es, path);
    EncodedSizes(es, path);
    ElemOffsetsAscend(inner, k, |inner|);
    if k < |inner| {
      ElementBytes(inner[k]);
    }
  }

  lemma EncodedSizes(es: seq<Element>, path: seq<nat>)
    requires ValidPath(es, path)
    ensures |EncodeDoc(Inner(es, path))| <= |EncodeDoc(es)|
  {
    hide EncodeList, FramesOf, Wrap;
    EncodeIsWrapped(es, path);
  }

  // ----- ranges of elements

  /** After a range edit the chain tracks the new tree and `r` refers to the start of the range. */
  ghost predicate ReplacedAt(
      r: Cursor, chain: seq<Mut>, d: Doc, es: seq<Element>, path: seq<nat>, i: nat, j: nat, new_: seq<Element>)
    requires ValidPath(es, path) && i <= j <= |Inner(es, path)|
    reads chain, d, d.buf, d.empty
  {
    var inner' := Replace(Inner(es, path), i, j, new_);
    var es' := Update(es, path, inner');
    && Tracks(chain, d, es', path) && Inner(es', path) == inner' && i <= |inner'|
    && r == CursorAt(d.buf, es', path, i)
  }

  lemma ReplacedCursor(
      buf: array<byte>, es: seq<Element>, path: seq<nat>, i: nat, j: nat, new_: seq<Element>)
    requires ValidPath(es, path) && i <= j <= |Inner(es, path)|
    ensures var inner' := Replace(Inner(es, path), i, j, new_);
      var es' := Update(es, path, inner');
      ValidPath(es', path) && Inner(es', path) == inner' && i <= |inner'| &&
      var was, at, end := CursorAt(buf, es', path, i).it, CursorAt(buf, es, path, i).it, CursorAt(buf, es, path, j).it;
      && was.pos == at.pos && at.pos <= end.pos
      && was.rlen + (end.pos - at.pos) == at.rlen + |EncodeList(new_)|
      && was.keylen == if new_ != [] then |new_[0].key| else end.keylen
  {
    hide EncodeList, Base;
    var inner := Inner(es, path);
    var inner' := Replace(inner, i, j, new_);
    UpdateKeepsBase(es, path, inner');
    ReplaceIsSplice(inner, i, j, new_);
    ElemOffsetsAscend(inner, i, j);
    assert inner'[..i] == inner[..i];
    assert i < |inner'| ==> inner'[i] == if new_ != [] then new_[0] else inner[j];
  }

  lemma NonEmptyBytes(es: seq<Element>)
    ensures es != [] ==> |EncodeList(es)| > 0
    ensures es == [] ==> EncodeList(es) == []
  {
  }

  /**
   `bson_splice_disjoint_ranges` on the innermost body: the bytes from one position to
   another are replaced. Replacing bytes by no more bytes never fails.
   */
  method SpliceSpan(
      mut: Mut, pos: Cursor, deleteEnd: Cursor, from: seq<byte>, fromKeylen: nat,
      ghost chain: seq<Mut>, ghost d: Doc, ghost fs: seq<Frame>, ghost body: seq<byte>, ghost rel: nat)
    returns (r: Cursor, done: bool)
    requires InSync(chain, d, fs, body) && mut == chain[|fs|] && |from| <= INT32_MAX
    requires pos.buf == d.buf && pos.it.At? && pos.it.pos == COOKIE + BodyPos(fs, 0, rel)
    requires deleteEnd.it.At? && pos.it.pos <= deleteEnd.it.pos
    requires rel + (deleteEnd.it.pos - pos.it.pos) <= |body| && pos.it.rlen == |body| - rel + 1
    modifies chain, d`buf, d.buf
    ensures d.buf == old(d.buf) || (fresh(d.buf) && old(d.buf)[..] == old(d.buf[..]))
    ensures !done ==>
      && InSync(chain, d, fs, body) && d.buf == old(d.buf) && d.buf[..] == old(d.buf[..])
      && r == EndCursor(d.buf, fs, body)
    ensures done ==>
      var n := deleteEnd.it.pos - pos.it.pos;
      && InSync(chain, d, fs, Splice(body, rel, n, from))
      && r == Cursor(d.buf,
        At(pos.it.pos, if |from| > 0 then fromKeylen else deleteEnd.it.keylen, pos.it.rlen - n + |from|))
    ensures var n := deleteEnd.it.pos - pos.it.pos;
      |from| <= n || WrapSize(fs, |body| - n + |from|) <= old(d.Capacity()) ==> done && d.buf == old(d.buf)
  {
    hide InSync, WrapSize, Splice, Offsets, RangeRlen;
    CapacityBound(chain, d, fs, body);
    var deleteSize := deleteEnd.it.pos - pos.it.pos;
    SizesShift(fs, |body| - deleteSize + |from|, |body|);
    var newRlen := RangeRlen(pos.it.rlen, |from|, deleteSize);
    RangeRlenExact(pos.it.rlen, |from|, deleteSize);
    if newRlen.None? {
      r := EndOf(mut, chain, d, fs, body);
      return r, false;
    }
    BodyHeld(chain, d, fs, body);
    var out := SpliceBody(mut, Ptr(pos.buf, pos.it.pos), deleteSize, |from|, Some(from), chain, d, fs, body, rel);
    if out.None? {
      r := EndOf(mut, chain, d, fs, body);
      return r, false;
    }
    r := Cursor(out.value.buf, At(out.value.at, if |from| > 0 then fromKeylen else deleteEnd.it.keylen, newRlen.value));
    done := true;
  }

  /**
   `bson_splice_disjoint_ranges`: elements `i..j` are replaced by the elements
   `new_` of another document, whose bytes are `from`. An edit that inserts
   nothing never fails; otherwise the result is the past-the-end iterator exactly
   when the edit failed, and then nothing changed.
   */
  method SpliceRanges(
      mut: Mut, pos: Cursor, deleteEnd: Cursor, from: seq<byte>, fromKeylen: nat,
      ghost chain: seq<Mut>, ghost d: Doc, ghost es: seq<Element>, ghost path: seq<nat>,
      ghost i: nat, ghost j: nat, ghost new_: seq<Element>)
    returns (r: Cursor)
    requires Tracks(chain, d, es, path) && mut == chain[|path|]
    requires i <= j <= |Inner(es, path)|
    requires pos == CursorAt(d.buf, es, path, i) && deleteEnd == CursorAt(d.buf, es, path, j)
    requires from == EncodeList(new_) && |from| <= INT32_MAX && (new_ != [] ==> fromKeylen == |new_[0].key|)
    modifies chain, d`buf, d.buf
    ensures d.buf == old(d.buf) || (fresh(d.buf) && old(d.buf)[..] == old(d.buf[..]))
    ensures new_ == [] || !Stop(r.it) ==> ReplacedAt(r, chain, d, es, path, i, j, new_)
    ensures new_ != [] && Stop(r.it) ==>
      && Tracks(chain, d, es, path) && d.buf == old(d.buf) && d.buf[..] == old(d.buf[..])
      && r == CursorAt(d.buf, es, path, |Inner(es, path)|)
    ensures |EncodeDoc(es)| + |from| - (deleteEnd.it.pos - pos.it.pos) <= old(d.Capacity()) ==>
      ReplacedAt(r, chain, d, es, path, i, j, new_) && d.buf == old(d.buf)
  {
    hide InSync, EncodeDoc, EncodeList, WrapSize, Splice, Offsets, FramesOf, Base, ReplacedAt, IterFor;
    RangeReady(chain, d, es, path, i, j, new_);
    SplicedSize(es, path, deleteEnd.it.pos - pos.it.pos, |from|);
    var done;
    r, done := SpliceSpan(mut, pos, deleteEnd, from, fromKeylen, chain, d, FramesOf(es, path),
      EncodeList(Inner(es, path)), ElemOffset(Inner(es, path), i) - 4);
    if done {
      TracksUpdated(chain, d, es, path, Replace(Inner(es, path), i, j, new_));
      RangeDone(r, chain, d, es, path, i, j, new_);
    }
  }

  /** What a range edit knows before it starts. */
  lemma RangeReady(
      chain: seq<Mut>, d: Doc, es: seq<Element>, path: seq<nat>, i: nat, j: nat, new_: seq<Element>)
    requires Tracks(chain, d, es, path) && i <= j <= |Inner(es, path)|
    ensures InSync(chain, d, FramesOf(es, path), EncodeList(Inner(es, path))) && |FramesOf(es, path)| == |path|
    ensures EndCursor(d.buf, FramesOf(es, path), EncodeList(Inner(es, path)))
         == CursorAt(d.buf, es, path, |Inner(es, path)|)
    ensures CursorAt(d.buf, es, path, |Inner(es, path)|).it.At? && Stop(CursorAt(d.buf, es, path, |Inner(es, path)|).it)
    ensures |EncodeDoc(es)| <= d.Capacity() <= INT32_MAX
    ensures var inner := Inner(es, path);
      var at, end := CursorAt(d.buf, es, path, i).it, CursorAt(d.buf, es, path, j).it;
      && at.At? && end.At? && at.pos <= end.pos && 1 <= at.rlen <= INT32_MAX && end.pos - at.pos < at.rlen
      && at.rlen <= |EncodeDoc(es)|
      && CursorAt(d.buf, es, path, i).buf == d.buf
      && at.pos == COOKIE + BodyPos(FramesOf(es, path), 0, ElemOffset(inner, i) - 4)
      && at.rlen == |EncodeList(inner)| - (ElemOffset(inner, i) - 4) + 1
      && ElemOffset(inner, i) - 4 + (end.pos - at.pos) <= |EncodeList(inner)|
      && EncodeList(Replace(inner, i, j, new_))
      == Splice(EncodeList(inner), ElemOffset(inner, i) - 4, end.pos - at.pos, EncodeList(new_))
    ensures new_ != [] ==> |EncodeList(new_)| > 0
    ensures new_ == [] ==> EncodeList(new_) == []
  {
    hide InSync, EncodeList, WrapSize, Splice, Offsets, FramesOf, Base;
    CursorFacts(chain, d, es, path, i);
    CursorFacts(chain, d, es, path, j);
    ElemOffsetsAscend(Inner(es, path), i, j);
    ElemOffsetsAscend(Inner(es, path), |Inner(es, path)|, |Inner(es, path)|);
    ReplaceIsSplice(Inner(es, path), i, j, new_);
    EndCursorIsAtEnd(d.buf, es, path);
    NonEmptyBytes(new_);
  }

  lemma RangeDone(
      r: Cursor, chain: seq<Mut>, d: Doc, es: seq<Element>, path: seq<nat>, i: nat, j: nat, new_: seq<Element>)
    requires ValidPath(es, path) && i <= j <= |Inner(es, path)|
    requires Tracks(chain, d, Update(es, path, Replace(Inner(es, path), i, j, new_)), path)
    requires var at, end := CursorAt(d.buf, es, path, i).it, CursorAt(d.buf, es, path, j).it;
      && r.buf == d.buf && r.it.At? && r.it.pos == at.pos
      && r.it.rlen + (end.pos - at.pos) == at.rlen + |EncodeList(new_)|
      && r.it.keylen == if new_ != [] then |new_[0].key| else end.keylen
    ensures ReplacedAt(r, chain, d, es, path, i, j, new_)
    ensures new_ != [] ==> !Stop(r.it)
  {
    hide InSync, EncodeList, EncodeDoc, Offsets, FramesOf, Base;
    ReplacedCursor(d.buf, es, path, i, j, new_);
    NonEmptyBytes(new_);
    CursorFacts(chain, d, Update(es, path, Replace(Inner(es, path), i, j, new_)), path, i);
  }

  function RangeRlen(rlen: Int.int64, copySize: Int.int64, deleteSize: Int.int64): Option<int> {
    var diff := Int.CastInt32(Int.Sub(Int.FromI64(copySize), Int.FromI64(deleteSize)));
    var r := NewRlen(rlen, diff.i64);
    if diff.flags == {} then r else None
  }

  lemma RangeRlenExact(rlen: Int.int64, copySize: Int.int64, deleteSize: Int.int64)
    requires 1 <= rlen <= INT32_MAX && 0 <= copySize <= INT32_MAX && 0 <= deleteSize <= INT32_MAX
    ensures var r := rlen as int + copySize as int - deleteSize as int;
      RangeRlen(rlen, copySize, deleteSize) == if 1 <= r <= INT32_MAX then Some(r) else None
  {
    hide NewRlen;
    NewRlenExact(rlen, copySize - deleteSize);
  }

  /** A document on the static bytes is the empty document, edited at its root. */
  lemma SharedIsEmpty(chain: seq<Mut>, d: Doc, es: seq<Element>, path: seq<nat>)
    requires Tracks(chain, d, es, path) && d.Shared()
    ensures es == [] && path == []
  {
    hide EncodeDoc, EncodeList, FramesOf, Wrap, Offsets;
    TracksContents(chain, d, es, path);
    ImageFacts(d.buf);
    EncodedNonEmpty(es);
  }

  lemma EncodedNonEmpty(es: seq<Element>)
    ensures |EncodeDoc(es)| <= 5 ==> es == []
  {
    hide EncodeList;
    NonEmptyBytes(es);
  }

  /** After a successful insertion the document is on bytes of its own. */
  lemma InsertedIsOwn(chain: seq<Mut>, d: Doc, es: seq<Element>, path: seq<nat>)
    requires Tracks(chain, d, es, path) && Inner(es, path) != []
    ensures !d.Shared()
  {
    hide InSync;
    if d.Shared() {
      SharedIsEmpty(chain, d, es, path);
    }
  }

  /**
   `bson_erase_range`: erasing never fails and never moves the document. It always
   rewrites the header and the tail, so it writes to the static bytes exactly when the
   document is on them; and that is only when the empty range of the empty document is
   erased.
   */
  method EraseRange(
      mut: Mut, first: Cursor, last: Cursor,
      ghost chain: seq<Mut>, ghost d: Doc, ghost es: seq<Element>, ghost path: seq<nat>, ghost i: nat, ghost j: nat)
    returns (r: Cursor, ghost wroteShared: bool)
    requires Tracks(chain, d, es, path) && mut == chain[|path|]
    requires i <= j <= |Inner(es, path)|
    requires first == CursorAt(d.buf, es, path, i) && last == CursorAt(d.buf, es, path, j)
    modifies chain, d`buf, d.buf
    ensures d.buf == old(d.buf)
    ensures ReplacedAt(r, chain, d, es, path, i, j, [])
    ensures wroteShared <==> d.Shared()
    ensures wroteShared ==> es == [] && path == [] && i == j == 0 && d.buf[..] == old(d.buf[..])
    ensures i < j ==> !wroteShared
  {
    hide InSync;
    wroteShared := d.Shared();
    if wroteShared {
      SharedIsEmpty(chain, d, es, path);
    }
    NonEmptyBytes([]);
    CursorFacts(chain, d, es, path, i);
    CursorFacts(chain, d, es, path, j);
    ElemOffsetsAscend(Inner(es, path), i, j);
    r := SpliceRanges(mut, first, last, [], last.it.keylen, chain, d, es, path, i, j, []);
    SharedImage(chain, d, Update(es, path, Replace(Inner(es, path), i, j, [])), path);
  }

  lemma SharedImage(chain: seq<Mut>, d: Doc, es: seq<Element>, path: seq<nat>)
    requires Tracks(chain, d, es, path)
    ensures d.empty[..] == EMPTY_IMAGE
  {
    hide EncodeList, FramesOf, Wrap, Offsets;
  }

  /** The bytes of the innermost document from element `i` on. */
  function Tail(es: seq<Element>, path: seq<nat>, i: nat): seq<byte>
    requires ValidPath(es, path) && i <= |Inner(es, path)|
  {
    EncodeList(Inner(es, path)[i..]) + [0]
  }

  /** The bytes that an iterator to element `i` stands at. */
  lemma TailHeld(chain: seq<Mut>, d: Doc, es: seq<Element>, path: seq<nat>, i: nat)
    requires Tracks(chain, d, es, path) && i <= |Inner(es, path)|
    ensures var it := CursorAt(d.buf, es, path, i).it;
      && it.At? && it.pos == COOKIE + BodyPos(FramesOf(es, path), 0, |EncodeList(Inner(es, path)[..i])|)
      && it.rlen == |Tail(es, path, i)| && it.pos + it.rlen <= d.buf.Length
      && d.buf[..][it.pos..it.pos + it.rlen] == Tail(es, path, i)
    ensures EncodeList(Inner(es, path)) + [0] == EncodeList(Inner(es, path)[..i]) + Tail(es, path, i)
    ensures ToTerminator(Tail(es, path, i))
  {
    hide EncodeList, InSync, FramesOf, Offsets, Holds;
    InnerHeld(chain, d, es, path);
    TailOfDoc(d.buf[..], Base(es, path), Inner(es, path), i);
    CursorFacts(chain, d, es, path, i);
    EncodeListSplit(Inner(es, path), i);
  }

  /**
   `bson_erase_one`. The end of what is erased is where the reader goes on behind the
   element. It halts, with nothing changed, exactly when the reader finds an error or
   aborts there: the pointer of an errant iterator is null, and the assertion on the size
   of the range fails. Otherwise exactly the bytes that the reader measures are gone, and
   those are element `i` exactly when it is measured whole. It never writes to the static
   bytes.
   */
  method EraseOne(
      mut: Mut, pos: Cursor,
      ghost chain: seq<Mut>, ghost d: Doc, ghost es: seq<Element>, ghost path: seq<nat>, ghost i: nat)
    returns (r: Option<Cursor>, ghost size: nat)
    requires Tracks(chain, d, es, path) && mut == chain[|path|]
    requires i < |Inner(es, path)| && pos == CursorAt(d.buf, es, path, i) && Produced(d.buf[..], pos.it)
    modifies chain, d`buf, d.buf
    ensures d.buf == old(d.buf) && !d.Shared()
    ensures !Stop(pos.it) && size == DataSize(old(d.buf[..]), pos.it)
    ensures r.Some? <==> Next(old(d.buf[..]), pos.it).At?
    ensures r.None? ==> Tracks(chain, d, es, path) && d.buf[..] == old(d.buf[..])
    ensures r.Some? ==>
      var rel, body := |EncodeList(Inner(es, path)[..i])|, EncodeList(Inner(es, path));
      && rel + size <= |body| && ChildOffsets(chain, es, path)
      && InSync(chain, d, FramesOf(es, path), Splice(body, rel, size, []))
      && r.value == Cursor(d.buf, At(pos.it.pos, Next(old(d.buf[..]), pos.it).keylen, pos.it.rlen - size))
    ensures r.Some? ==>
      (size == |EncodeElement(Inner(es, path)[i])| <==>
       Tracks(chain, d, Update(es, path, Replace(Inner(es, path), i, i + 1, [])), path))
    ensures var inner := Inner(es, path);
      r.Some? && size == |EncodeElement(inner[i])| && (i + 1 < |inner| ==> 0 !in inner[i + 1].key) ==>
        ReplacedAt(r.value, chain, d, es, path, i, i + 1, [])
    ensures var inner := Inner(es, path);
      ReadableElement(inner[i]) && (i + 1 < |inner| ==> ReadableElement(inner[i + 1])) ==>
        r.Some? && ReplacedAt(r.value, chain, d, es, path, i, i + 1, [])
  {
    hide InSync, EncodeDoc, EncodeList, EncodeElement, Offsets, FramesOf, Base, IterFor, ReplacedAt, Next, Splice,
      DataSize, IteratorAt, Produced, Holds, Delimited;
    ghost var inner := Inner(es, path);
    InsertedIsOwn(chain, d, es, path);
    StopIsLast(d.buf, es, path, i);
    CursorFacts(chain, d, es, path, i);
    size := DataSize(d.buf[..], pos.it);
    var next := Next(pos.buf[..], pos.it);
    InnerHeld(chain, d, es, path);
    if ReadableElement(inner[i]) && (i + 1 < |inner| ==> ReadableElement(inner[i + 1])) {
      NextBoundary(d.buf[..], Base(es, path), inner, i);
      IteratorAtBoundary(d.buf[..], Base(es, path), inner, i);
      CursorFacts(chain, d, es, path, i + 1);
    }
    if !next.At? {
      return None, size;
    }
    if size == |EncodeElement(inner[i])| && (i + 1 < |inner| ==> 0 !in inner[i + 1].key) {
      NextIsBoundary(d.buf[..], Base(es, path), inner, i);
    }
    var at, done := SpliceSpan(mut, pos, Cursor(pos.buf, next), [], next.keylen, chain, d, FramesOf(es, path),
      EncodeList(inner), ElemOffset(inner, i) - 4);
    r := Some(at);
    ErasedExactly(at, next.keylen, size, chain, d, es, path, i);
  }

  /** After erasing `size` bytes at element `i`: the tree without that element, exactly if that is its size. */
  lemma ErasedExactly(
      at: Cursor, keylen: nat, size: nat, chain: seq<Mut>, d: Doc, es: seq<Element>, path: seq<nat>, i: nat)
    requires ValidPath(es, path) && i < |Inner(es, path)| && ChildOffsets(chain, es, path)
    requires |EncodeList(Inner(es, path)[..i])| + size <= |EncodeList(Inner(es, path))|
    requires InSync(chain, d, FramesOf(es, path),
               Splice(EncodeList(Inner(es, path)), |EncodeList(Inner(es, path)[..i])|, size, []))
    requires var was := CursorAt(d.buf, es, path, i).it;
      at == Cursor(d.buf, At(was.pos, keylen, was.rlen - size))
    ensures size == |EncodeElement(Inner(es, path)[i])| <==>
      Tracks(chain, d, Update(es, path, Replace(Inner(es, path), i, i + 1, [])), path)
    ensures size == |EncodeElement(Inner(es, path)[i])| && keylen == CursorAt(d.buf, es, path, i + 1).it.keylen ==>
      ReplacedAt(at, chain, d, es, path, i, i + 1, [])
  {
    hide InSync, EncodeDoc, EncodeList, EncodeElement, Offsets, FramesOf, Base, ReplacedAt, Splice;
    var inner := Inner(es, path);
    var inner' := Replace(inner, i, i + 1, []);
    EncodeListPickHead(inner, i);
    ReplaceIsSplice(inner, i, i + 1, []);
    NonEmptyBytes([]);
    if size == |EncodeElement(inner[i])| {
      TracksUpdated(chain, d, es, path, inner');
      if keylen == CursorAt(d.buf, es, path, i + 1).it.keylen {
        RangeDone(at, chain, d, es, path, i, i + 1, []);
      }
    }
    if Tracks(chain, d, Update(es, path, inner'), path) {
      UpdateKeepsFrames(es, path, inner');
      SameBody(chain, d, FramesOf(es, path), Splice(EncodeList(inner), |EncodeList(inner[..i])|, size, []),
        EncodeList(inner'));
    }
  }

  /** The size of the body is determined by the document. */
  lemma SameBody(chain: seq<Mut>, d: Doc, fs: seq<Frame>, a: seq<byte>, b: seq<byte>)
    requires InSync(chain, d, fs, a) && InSync(chain, d, fs, b)
    ensures |a| == |b|
  {
    hide Offsets, Wrap;
    SizesShift(fs, |a|, |b|);
  }

  lemma StopIsLast(buf: array<byte>, es: seq<Element>, path: seq<nat>, m: nat)
    requires ValidPath(es, path) && m <= |Inner(es, path)|
    ensures Stop(CursorAt(buf, es, path, m).it) <==> m == |Inner(es, path)|
  {
    hide EncodeList, Base;
    ElemOffsetsAscend(Inner(es, path), m, |Inner(es, path)|);
  }
}
