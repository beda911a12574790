/**
 Inserting an element and erasing it again (`bson_insert` and `bson_erase_one` in
 `include/bson/mut.h`): when the second undoes the first.
 */
module Undo {
  import opened Bytes
  import opened Frames
  import opened Document
  import opened Iteration
  import opened Reading
  import opened Recognition
  import opened Values
  import opened Storage
  import opened Mutator
  import opened Tracking
  import opened Insertion
  import opened Ranges
  import opened Relabel
  import Int = Integer

  /** Without the inserted element the tree is what it was. */
  lemma InsertedThenRemoved(es: seq<Element>, path: seq<nat>, k: nat, key: seq<byte>, v: ValueRef)
    requires ValidPath(es, path) && k <= |Inner(es, path)|
    ensures var es' := Inserted(es, path, k, key, v);
      && ValidPath(es', path) && k < |Inner(es', path)| && Inner(es', path)[k] == NewElement(key, v)
      && Inner(es', path)[k + 1..] == Inner(es, path)[k..]
      && Update(es', path, Replace(Inner(es', path), k, k + 1, [])) == es
  {
    hide NewElement;
    var inner, e := Inner(es, path), NewElement(key, v);
    var inner' := Replace(inner, k, k, [e]);
    UpdateKeepsFrames(es, path, inner');
    assert Replace(inner', k, k + 1, []) == inner;
    UpdateTwice(es, path, inner', inner);
    UpdateSame(es, path);
  }

  lemma InsertedSize(es: seq<Element>, path: seq<nat>, k: nat, key: seq<byte>, v: ValueRef)
    requires ValidPath(es, path) && k <= |Inner(es, path)|
    ensures |EncodeDoc(Inserted(es, path, k, key, v))| == |EncodeDoc(es)| + |EncodeElement(NewElement(key, v))|
  {
    hide EncodeDoc, EncodeList, EncodeElement, NewElement, FramesOf;
    var inner, e := Inner(es, path), NewElement(key, v);
    var inner' := Replace(inner, k, k, [e]);
    ReplaceIsSplice(inner, k, k, [e]);
    EncodeListSingle(e);
    UpdateKeepsFrames(es, path, inner');
    SplicedSize(es, path, 0, |EncodeElement(e)|);
    SplicedSize(Inserted(es, path, k, key, v), path, 0, 0);
  }

  /** The reader stands at the new element; it measures the whole of it or less. */
  lemma InsertedMeasured(
      r: Cursor, chain: seq<Mut>, d: Doc, es: seq<Element>, path: seq<nat>, k: nat, key: seq<byte>, v: ValueRef)
    requires ValidPath(es, path) && k <= |Inner(es, path)|
    requires InsertedAt(r, chain, d, es, path, k, key, v) && Insertable(v)
    ensures Produced(d.buf[..], r.it) && !Stop(r.it)
    ensures DataSize(d.buf[..], r.it) <= |EncodeElement(NewElement(key, v))|
    ensures DataSize(d.buf[..], r.it) == |EncodeElement(NewElement(key, v))| <==> !v.Regex? && !v.DbPointer?
  {
    hide EncodeElement, NewElement, InsertedAt, Insertable, Produced, DataSize, ReadValue, ReadsBack, MeasuredSize;
    InsertedReadsBack(r, chain, d, es, path, k, key, v);
    StoredShort(v);
    NewElementSize(key, v);
  }

  /** The bytes from the new element on. */
  function NewTail(es: seq<Element>, path: seq<nat>, k: nat, key: seq<byte>, v: ValueRef): seq<byte>
    requires ValidPath(es, path) && k <= |Inner(es, path)|
  {
    EncodeElement(NewElement(key, v)) + Tail(es, path, k)
  }

  lemma NewTailHeld(
      r: Cursor, chain: seq<Mut>, d: Doc, es: seq<Element>, path: seq<nat>, k: nat, key: seq<byte>, v: ValueRef)
    requires ValidPath(es, path) && k <= |Inner(es, path)| && InsertedAt(r, chain, d, es, path, k, key, v)
    ensures var t := NewTail(es, path, k, key, v);
      && r.it.At? && ToTerminator(t) && r.it.rlen == |t| && r.it.pos + |t| <= d.buf.Length
      && d.buf[..][r.it.pos..r.it.pos + |t|] == t
  {
    hide EncodeElement, EncodeList, NewElement, InSync, IterFor, Base, FramesOf, BodyPos;
    var es' := Inserted(es, path, k, key, v);
    TailHeld(chain, d, es', path, k);
    InsertedThenRemoved(es, path, k, key, v);
    EncodeListPickTail(Inner(es', path), k);
    Associate(EncodeElement(NewElement(key, v)), EncodeList(Inner(es, path)[k..]), [0]);
  }

  /** Where the reader goes on from the new element. */
  lemma InsertedNext(
      r: Cursor, chain: seq<Mut>, d: Doc, es: seq<Element>, path: seq<nat>, k: nat, key: seq<byte>, v: ValueRef)
    requires ValidPath(es, path) && k <= |Inner(es, path)|
    requires InsertedAt(r, chain, d, es, path, k, key, v) && Insertable(v)
    ensures Produced(d.buf[..], r.it) && !Stop(r.it)
    ensures var t := NewTail(es, path, k, key, v);
      && ToTerminator(t) && ElementAt(t).Elem? && FirstSize(t) == DataSize(d.buf[..], r.it)
      && StandsAt(d.buf[..], Next(d.buf[..], r.it), r.it.pos + FirstSize(t), t[FirstSize(t)..])
  {
    hide Insertable, DataSize, ElementAt, Produced, FirstSize, StandsAt, Next, InsertedAt, NewTail;
    var t := NewTail(es, path, k, key, v);
    InsertedMeasured(r, chain, d, es, path, k, key, v);
    NewTailHeld(r, chain, d, es, path, k, key, v);
    ProducedBytes(d.buf[..], r.it);
    SizeThere(d.buf[..], r.it.pos, t);
    NextStands(d.buf[..], r.it.pos, t);
  }

  /** Behind a value that is measured whole, the reader finds what it found there before the insertion. */
  lemma WholeNext(
      r: Cursor, chain: seq<Mut>, d: Doc, es: seq<Element>, path: seq<nat>, k: nat, key: seq<byte>, v: ValueRef)
    requires ValidPath(es, path) && k <= |Inner(es, path)|
    requires InsertedAt(r, chain, d, es, path, k, key, v) && Insertable(v) && !v.Regex? && !v.DbPointer?
    requires ToTerminator(Tail(es, path, k))
    requires var parsed := ElementAt(Tail(es, path, k));
      parsed.Elem? || parsed.Terminator?
    ensures Produced(d.buf[..], r.it) && !Stop(r.it) && Next(d.buf[..], r.it).At?
  {
    hide EncodeElement, EncodeList, NewElement, InsertedAt, Insertable, Produced, DataSize, ElementAt, Next, FirstSize,
      IteratorAt, Tail;
    var t := NewTail(es, path, k, key, v);
    InsertedMeasured(r, chain, d, es, path, k, key, v);
    InsertedNext(r, chain, d, es, path, k, key, v);
    assert t[FirstSize(t)..] == Tail(es, path, k);
    StandsThere(d.buf[..], r.it.pos + FirstSize(t), t[FirstSize(t)..]);
    AtIff(d.buf[..], r.it.pos + FirstSize(t), t[FirstSize(t)..]);
  }

  lemma AtIff(mem: seq<byte>, pos: nat, t: seq<byte>)
    requires ToTerminator(t) && pos + |t| <= |mem| && mem[pos..pos + |t|] == t && Spans(mem, pos, |t|)
    ensures IteratorAt(mem, pos, |t|).At? <==> ElementAt(t).Elem? || ElementAt(t).Terminator?
  {
    hide ElementAt;
  }

  /** Behind a regular expression without NULs the reader finds the fill bytes, and returns an error. */
  lemma RegexNextErrant(
      r: Cursor, chain: seq<Mut>, d: Doc, es: seq<Element>, path: seq<nat>, k: nat, key: seq<byte>, v: ValueRef)
    requires ValidPath(es, path) && k <= |Inner(es, path)|
    requires InsertedAt(r, chain, d, es, path, k, key, v) && Insertable(v) && v.Regex? && NulFree(v)
    ensures Produced(d.buf[..], r.it) && !Stop(r.it) && Next(d.buf[..], r.it).Errant?
  {
    hide EncodeElement, NewElement, Insertable, Produced, DataSize, ElementAt, Next, FirstSize, First,
      IteratorAt, Seen, Unread, Payload, NulFree, InsertedAt, EncodeList;
    var t := NewTail(es, path, k, key, v);
    NewTailHeld(r, chain, d, es, path, k, key, v);
    InsertedNext(r, chain, d, es, path, k, key, v);
    RegexSeen(key, v, Tail(es, path, k));
    FillMalformed(Repeat(FILL, 3) + Tail(es, path, k));
    SeenStep(t);
    SeenStep(t[FirstSize(t)..]);
    StandsThere(d.buf[..], r.it.pos + FirstSize(t), t[FirstSize(t)..]);
  }

  /**
   Insert a value and erase it again, at any position at which the reader stands. The
   erasure restores the tree if and only if the value is neither a regular expression nor
   a dbpointer. Behind a regular expression without NULs it halts.
   */
  method InsertThenErase(
      mut: Mut, pos: Cursor, key: seq<byte>, val: ValueRef,
      ghost chain: seq<Mut>, ghost d: Doc, ghost es: seq<Element>, ghost path: seq<nat>, ghost k: nat)
    returns (inserted: bool, erased: bool)
    requires Tracks(chain, d, es, path) && mut == chain[|path|]
    requires k <= |Inner(es, path)| && pos == CursorAt(d.buf, es, path, k) && Produced(d.buf[..], pos.it)
    requires Insertable(val) && !val.Eod? && |key| <= Int.INT64_MAX
    modifies chain, d`buf, d.buf
    ensures |EncodeDoc(es)| + |EncodeElement(NewElement(key, val))| <= old(d.Capacity()) ==> inserted
    ensures !inserted ==> !erased && Tracks(chain, d, es, path) && d.buf == old(d.buf) && d.buf[..] == old(d.buf[..])
    ensures inserted ==> (erased && Tracks(chain, d, es, path) <==> !val.Regex? && !val.DbPointer?)
    ensures inserted && (val.Regex? || val.DbPointer?) ==> !Tracks(chain, d, es, path)
    ensures inserted && val.Regex? && NulFree(val) ==> !erased
  {
    hide InSync, EncodeDoc, EncodeList, EncodeElement, NewElement, IterFor, Base, FramesOf, Produced, ElementAt,
      InRanges, DataSize, Next, Tail, BodyPos, ReplacedAt, IteratorAt, NulFree;
    TailHeld(chain, d, es, path, k);
    ProducedBytes(d.buf[..], pos.it);
    var at, effect := InsertValue(mut, pos, key, val, chain, d, es, path, k);
    inserted, erased := effect == Whole, false;
    if inserted {
      ghost var es' := Inserted(es, path, k, key, val);
      InsertedThenRemoved(es, path, k, key, val);
      InsertedSize(es, path, k, key, val);
      InsertedMeasured(at, chain, d, es, path, k, key, val);
      BothTracked(chain, d, es, es', path);
      if !val.Regex? && !val.DbPointer? {
        WholeNext(at, chain, d, es, path, k, key, val);
      } else if val.Regex? && NulFree(val) {
        RegexNextErrant(at, chain, d, es, path, k, key, val);
      }
      var r;
      ghost var size;
      r, size := EraseOne(mut, at, chain, d, es', path, k);
      BothTracked(chain, d, es, es', path);
      erased := r.Some?;
    }
  }

  /** A document encodes trees of one size only. */
  lemma BothTracked(chain: seq<Mut>, d: Doc, a: seq<Element>, b: seq<Element>, path: seq<nat>)
    ensures Tracks(chain, d, a, path) && Tracks(chain, d, b, path) ==> |EncodeDoc(a)| == |EncodeDoc(b)|
  {
    hide Tracks, EncodeDoc;
    if Tracks(chain, d, a, path) && Tracks(chain, d, b, path) {
      TracksContents(chain, d, a, path);
      TracksContents(chain, d, b, path);
    }
  }
}
