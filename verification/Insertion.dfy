/**
 Inserting a value (`_bson_prep_element_region` and `_bson_insert_value` in
 `include/bson/mut.h`) through a chain of nested mutators is inserting an element
 into the tree, and the reader finds that element with its key and value.
 */
module Insertion {
  import opened Bytes
  import opened Frames
  import opened Document
  import opened Iteration
  import opened Reading
  import opened Values
  import opened Storage
  import opened Mutator
  import opened Sync
  import opened Tracking
  import Int = Integer

  // ----- values to insert

  const FILL: byte := 'X' as int

  /** What is stored for a value: a null view becomes an empty document, a collection name is cut. */
  function Normal(v: ValueRef): ValueRef {
    match v
    case DocumentRef(view) => if view == [] then DocumentRef([5, 0, 0, 0, 0]) else v
    case ArrayRef(view) => if view == [] then ArrayRef([5, 0, 0, 0, 0]) else v
    case DbPointer(collection, id) => DbPointer(Chop(collection), id)
    case _ => v
  }

  /** The value bytes an insertion leaves: behind a regular expression there may be fill bytes. */
  function Written(v: ValueRef): seq<byte> {
    Payload(v) + Pad(v)
  }

  /** The fill bytes an insertion leaves behind the value. */
  function Pad(v: ValueRef): seq<byte> {
    Repeat(FILL, Slack(v))
  }

  /**
   The region for a regular expression is sized by the strings up to their first NULs, and
   three bytes larger than those need; the strings are copied in full.
   */
  function Slack(v: ValueRef): nat {
    if v.Regex? && RegexFits(v) then |Chop(v.regex)| + |Chop(v.options)| + 3 - |v.regex| - |v.options| else 0
  }

  /** What is copied stays within the region: no more than three bytes from the first NULs on. */
  predicate RegexFits(v: ValueRef)
    requires v.Regex?
  {
    |v.regex| - |Chop(v.regex)| + |v.options| - |Chop(v.options)| <= 3
  }

  lemma RegexFitsIff(v: ValueRef)
    requires v.Regex?
    ensures |Payload(v)| <= |Chop(v.regex)| + |Chop(v.options)| + 5 <==> RegexFits(v)
    ensures 0 !in v.regex && 0 !in v.options ==> RegexFits(v) && Slack(v) == 3
  {
    hide Chop;
    if 0 !in v.regex && 0 !in v.options {
      ChopKeeps(v.regex);
      ChopKeeps(v.options);
    }
  }

  /** The ranges that the C types give the components of an inserted value. */
  ghost predicate InRanges(v: ValueRef) {
    match v
    case Utf8(s) => |s| <= Int.INT64_MAX
    case Code(s) => |s| <= Int.INT64_MAX
    case Symbol(s) => |s| <= Int.INT64_MAX
    case DocumentRef(view) => view == [] || IsView(view)
    case ArrayRef(view) => view == [] || IsView(view)
    case Binary(_, data) => |data| < 0x1_0000_0000
    case Oid(bytes) => |bytes| == 12
    case DateTime(ms) => IsInt64(ms)
    case Regex(regex, options) => |regex| + |options| <= Int.INT64_MAX - 5
    case DbPointer(collection, id) => |id| == 12 && |collection| <= Int.INT64_MAX
    case Int32(i) => INT32_MIN <= i <= INT32_MAX
    case Int64(i) => IsInt64(i)
    case Decimal128(bytes) => |bytes| == 16
    case _ => true
  }

  /** A value that an insertion stores as an element. */
  ghost predicate Insertable(v: ValueRef) {
    InRanges(v) && !v.CodeWithScope? && (v.Regex? ==> RegexFits(v))
  }

  /** The size of the value region; that of a regular expression is for the strings up to their first NULs. */
  function Room(v: ValueRef): nat {
    if v.Regex? then |Chop(v.regex)| + |Chop(v.options)| + 5 else |Payload(Normal(v))|
  }

  /** The size of a string value with its prefix and terminator, in checked arithmetic. */
  function StringSize(len: Int.size_t): Option<uint32> {
    var size := Int.CastPositiveInt32(Int.Add(Int.FromU64(len), Int.FromI64(1), false));
    var total := Int.CastPositiveInt32(Int.Add(Int.FromI64(size.i64), Int.FromI64(4), false));
    if size.flags == {} && total.flags == {} then Some(total.i64) else None
  }

  /** The region for a regular expression, in checked arithmetic. */
  function RegexRegion(rx: Int.size_t, opt: Int.size_t): Option<uint32> {
    var size := Int.CastNonNegativeInt32(Int.CheckBounds(Int.FromI64(2), Int.FromI64(Int.INT64_MAX),
      Int.Add(Int.FromU64(rx), Int.Add(Int.FromU64(opt), Int.FromI64(5), false), false)));
    if size.flags == {} then Some(size.i64) else None
  }

  /** The value region that `_bson_insert_value` asks for. */
  function ReservedSize(v: ValueRef): Option<uint32>
    requires InRanges(v)
  {
    match v
    case CodeWithScope(_, _) => None
    case Utf8(s) => StringSize(|s|)
    case Code(s) => StringSize(|s|)
    case Symbol(s) => StringSize(|s|)
    case Binary(_, data) =>
      var size := Int.CastNonNegativeInt32(Int.FromI64(|data|));
      var total := Int.CastPositiveInt32(Int.Add(Int.FromI64(size.i64), Int.FromI64(5), false));
      if size.flags == {} && total.flags == {} then Some(total.i64) else None
    case Regex(regex, options) => RegexRegion(|Chop(regex)|, |Chop(options)|)
    case DbPointer(collection, _) =>
      var size := Int.CastPositiveInt32(Int.Add(Int.FromI64(|Chop(collection)|), Int.FromI64(1), false));
      var total := Int.CastNonNegativeInt32(Int.Add(Int.FromI64(size.i64), Int.FromI64(16), false));
      if size.flags == {} && total.flags == {} then Some(total.i64) else None
    case DocumentRef(view) => Some(if view == [] then 5 else |view|)
    case ArrayRef(view) => Some(if view == [] then 5 else |view|)
    case _ => Some(|Payload(v)|)
  }

  /** The region is reserved exactly if it fits; what is stored fills it, or overruns it. */
  lemma ReservedExact(v: ValueRef)
    requires InRanges(v) && !v.CodeWithScope?
    ensures ReservedSize(v) == if Room(v) <= INT32_MAX then Some(Room(v)) else None
    ensures Insertable(v) <==> |Payload(Normal(v))| <= Room(v)
    ensures Insertable(v) ==> Room(v) == |Payload(Normal(v))| + Slack(v)
  {
    hide StringSize, RegexRegion, U32le, U64le, Chop, ReadU32le, IsInt64;
    match v
    case Utf8(s) => StringSizeExact(|s|);
    case Code(s) => StringSizeExact(|s|);
    case Symbol(s) => StringSizeExact(|s|);
    case Binary(_, _) => BinarySizeExact(v);
    case Regex(_, _) => RegexSizeExact(v);
    case DbPointer(_, _) => DbPointerSizeExact(v);
    case _ =>
  }

  lemma StringSizeExact(len: Int.size_t)
    requires len <= Int.INT64_MAX
    ensures StringSize(len) == if len + 5 <= INT32_MAX then Some(len + 5) else None
  {
  }

  lemma BinarySizeExact(v: ValueRef)
    requires v.Binary? && |v.data| < 0x1_0000_0000
    ensures ReservedSize(v) == if |v.data| + 5 <= INT32_MAX then Some(|v.data| + 5) else None
  {
  }

  lemma RegexSizeExact(v: ValueRef)
    requires v.Regex? && InRanges(v)
    ensures var n := |Chop(v.regex)| + |Chop(v.options)| + 5;
      ReservedSize(v) == if n <= INT32_MAX then Some(n) else None
  {
    hide Chop;
    assert |Chop(v.regex)| <= |v.regex| && |Chop(v.options)| <= |v.options|;
  }

  lemma DbPointerSizeExact(v: ValueRef)
    requires v.DbPointer? && InRanges(v)
    ensures var n := |Chop(v.collection)| + 17;
      ReservedSize(v) == if n <= INT32_MAX then Some(n) else None
  {
    hide Chop;
    assert |Chop(v.collection)| <= |v.collection|;
  }

  lemma WrittenIsPadded(v: ValueRef)
    ensures Written(v) == Payload(v) + Pad(v)
    ensures !v.Regex? ==> Pad(v) == []
    ensures v.Regex? && NulFree(v) ==> |Pad(v)| == 3
  {
    hide Payload;
    if v.Regex? {
      RegexFitsIff(v);
    }
  }

  /** A value that can be inserted is stored in a well-formed form, if that fits a document. */
  lemma NormalWellFormed(v: ValueRef)
    requires Insertable(v) && |Payload(Normal(v))| < INT32_MAX
    ensures WellFormed(Normal(v)) && !Normal(v).CodeWithScope?
  {
    hide StringBytes, U32le, U64le, Chop;
  }

  lemma NormalKeepsKind(v: ValueRef)
    ensures TagOf(Normal(v)) == TagOf(v) && ReadsBack(Normal(v)) == ReadsBack(v) && NulFree(Normal(v)) == NulFree(v)
    ensures v.Regex? ==> Normal(v) == v
    ensures Normal(v).DbPointer? == v.DbPointer? && Normal(v).CodeWithScope? == v.CodeWithScope?
    ensures Normal(v).Regex? == v.Regex?
  {
    hide Chop;
  }

  /** The first two strings of what is stored for a regular expression end before the region does. */
  lemma RegexMeasuredShort(v: ValueRef)
    requires v.Regex? && RegexFits(v)
    ensures MeasuredSize(v) < |Written(v)|
    ensures NulFree(v) ==> MeasuredSize(v) == |Written(v)| - 3
  {
    hide TwoNuls, TwoStrings, Chop;
    RegexStrings(v.regex, v.options);
    WrittenIsPadded(v);
    if 0 !in v.regex {
      ChopKeeps(v.regex);
    }
  }

  /** The size the reader gives to what is stored. */
  lemma StoredShort(v: ValueRef)
    requires Insertable(v)
    ensures var w, n := Written(Normal(v)), MeasuredSize(Normal(v));
      && n <= |w| && (n == |w| <==> !v.Regex? && !v.DbPointer?)
      && (v.Regex? && NulFree(v) ==> n == |w| - 3)
      && (v.DbPointer? ==> n == |w| - 4)
  {
    hide Payload, MeasuredSize;
    NormalKeepsKind(v);
    WrittenIsPadded(Normal(v));
    if v.Regex? {
      RegexMeasuredShort(v);
    }
  }

  /**
   The reader measures what an insertion stores by its whole length, whatever follows,
   exactly when the value is neither a regular expression nor a dbpointer: it stops
   short of the end of the first, by three bytes if its strings have no NULs, and four
   short of the second.
   */
  lemma WrittenAsSpecified(v: ValueRef, rest: seq<byte>)
    requires Insertable(v) && 0 < |rest| && |Written(Normal(v))| + |rest| <= INT32_MAX
    ensures var w := Written(Normal(v));
      var size := Measure(TagOf(v), w + rest);
      && size.Size? && size.n <= |w|
      && (size.n == |w| <==> !v.Regex? && !v.DbPointer?)
      && (v.Regex? && NulFree(v) ==> size.n == |w| - 3)
      && (v.DbPointer? ==> size.n == |w| - 4)
  {
    hide Payload, WellFormed, ValSize, Written, Pad, Insertable, Normal, TwoNuls, TwoStrings;
    var n := Normal(v);
    NormalKeepsKind(v);
    WrittenIsPadded(n);
    NormalWellFormed(v);
    StoredShort(v);
    assert Payload(n) + Pad(n) + rest == Payload(n) + (Pad(n) + rest);
    MeasuredAsSpecified(n, Pad(n) + rest);
  }

  /** Store the bytes of a value (the writing half of `_bson_insert_value`). */
  method WritePayload(buf: array<byte>, at: nat, v: ValueRef) returns (end: nat)
    requires !v.CodeWithScope? && at + |Payload(v)| <= buf.Length
    modifies buf
    ensures buf[..] == Patch(old(buf[..]), at, Payload(v))
    ensures end == at + |Payload(v)|
  {
    hide Patch, U32le, U64le, StringBytes;
    end := at;
    PatchNothing(buf[..], at);
    match v {
      case Double(bits) => end := WriteU64le(buf, at, bits);
      case DateTime(ms) => end := WriteU64le(buf, at, ms);
      case Int64(i) => end := WriteU64le(buf, at, i);
      case Int32(i) => end := WriteU32le(buf, at, i);
      case Timestamp(increment, seconds) => end := WriteTwo(buf, at, U32le(increment), U32le(seconds));
      case Utf8(s) => end := WriteString(buf, at, s);
      case Code(s) => end := WriteString(buf, at, s);
      case Symbol(s) => end := WriteString(buf, at, s);
      case Binary(subtype, data) =>
        end := WriteTwo(buf, at, U32le(|data|), [subtype] + data);
        assert U32le(|data|) + ([subtype] + data) == Payload(v);
      case Regex(regex, options) => end := Memcpy(buf, at, regex + [0] + options + [0]);
      case DbPointer(collection, id) => end := WriteTwo(buf, at, StringBytes(collection), id);
      case DocumentRef(view) => end := Memcpy(buf, at, view);
      case ArrayRef(view) => end := Memcpy(buf, at, view);
      case Oid(bytes) => end := Memcpy(buf, at, bytes);
      case Decimal128(bytes) => end := Memcpy(buf, at, bytes);
      case Bool(b) => end := Memcpy(buf, at, [if b then 1 else 0]);
      case _ =>
    }
  }

  lemma PatchNothing(a: seq<byte>, at: nat)
    requires at <= |a|
    ensures Patch(a, at, []) == a
  {
  }

  method WriteString(buf: array<byte>, at: nat, s: seq<byte>) returns (end: nat)
    requires at + |StringBytes(s)| <= buf.Length
    modifies buf
    ensures buf[..] == Patch(old(buf[..]), at, StringBytes(s))
    ensures end == at + |StringBytes(s)|
  {
    end := WriteTwo(buf, at, U32le(|s| + 1), s + [0]);
    assert U32le(|s| + 1) + (s + [0]) == StringBytes(s);
  }

  /** Two consecutive pieces. */
  method WriteTwo(buf: array<byte>, at: nat, v: seq<byte>, w: seq<byte>) returns (end: nat)
    requires at + |v| + |w| <= buf.Length
    modifies buf
    ensures buf[..] == Patch(old(buf[..]), at, v + w)
    ensures end == at + |v + w|
  {
    hide Patch;
    ghost var before := buf[..];
    end := Memcpy(buf, at, v);
    end := Memcpy(buf, end, w);
    PatchTwice(before, at, v, w);
  }

  lemma PatchTwice(a: seq<byte>, at: nat, v: seq<byte>, w: seq<byte>)
    requires at + |v| + |w| <= |a|
    ensures Patch(Patch(a, at, v), at + |v|, w) == Patch(a, at, v + w)
  {
  }

  // ----- preparing the region of a new element

  /** The whole element's size, in checked arithmetic. */
  function ElemSize(keylen: Int.size_t, datasize: uint32): Option<uint32> {
    var size := Int.CastNonNegativeInt32(
      Int.Add(Int.FromU64(keylen), Int.Add(Int.FromI64(2), Int.FromU64(datasize), false), false));
    if size.flags == {} then Some(size.i64) else None
  }

  lemma ElemSizeExact(keylen: Int.size_t, datasize: uint32)
    requires keylen <= Int.INT64_MAX
    ensures ElemSize(keylen, datasize) ==
      if keylen + 2 + datasize <= INT32_MAX then Some(keylen + 2 + datasize) else None
  {
  }

  /** Tag, key and the key's terminator. */
  function Head(tag: byte, key: seq<byte>): (h: seq<byte>)
    ensures |h| == |key| + 2
  {
    [tag] + key + [0]
  }

  lemma HeadThenFill(body: seq<byte>, rel: nat, w: seq<byte>, n: nat)
    requires rel <= |body|
    ensures Patch(Splice(body, rel, 0, Repeat(FILL, |w| + n)), rel, w) == Splice(body, rel, 0, w + Repeat(FILL, n))
  {
    assert Repeat(FILL, |w| + n)[|w|..] == Repeat(FILL, n);
  }

  /**
   `_bson_prep_element_region`: on success the body has a new element at `rel`
   with a value of `datasize` fill bytes, and `out` is where the value starts.
   */
  method PrepElementRegion(
      mut: Mut, pos: Cursor, tag: byte, rawKey: seq<byte>, datasize: uint32,
      ghost chain: seq<Mut>, ghost d: Doc, ghost fs: seq<Frame>, ghost body: seq<byte>, ghost rel: nat)
    returns (r: Cursor, out: Option<Ptr>)
    requires InSync(chain, d, fs, body) && mut == chain[|fs|]
    requires rel <= |body| && pos.buf == d.buf && pos.it.At? && pos.it.pos == COOKIE + BodyPos(fs, 0, rel)
    requires |rawKey| <= Int.INT64_MAX
    modifies chain, d`buf, d.buf
    ensures d.buf == old(d.buf) || (fresh(d.buf) && old(d.buf)[..] == old(d.buf[..]))
    ensures out.None? ==>
      && InSync(chain, d, fs, body) && d.buf == old(d.buf) && d.buf[..] == old(d.buf[..])
      && r == EndCursor(d.buf, fs, body)
    ensures out.Some? ==>
      var key := Chop(rawKey);
      && InSync(chain, d, fs, Splice(body, rel, 0, Head(tag, key) + Repeat(FILL, datasize)))
      && out.value == Ptr(d.buf, COOKIE + BodyPos(fs, 0, rel + 2 + |key|))
      && r == Cursor(d.buf, At(pos.it.pos, |key|, |body| - rel + 2 + |key| + datasize + 1))
    ensures WrapSize(fs, |body| + |Chop(rawKey)| + 2 + datasize) <= old(d.Capacity()) ==>
      out.Some? && d.buf == old(d.buf)
  {
    hide InSync, Wrap, WrapSize, Splice, Patch, Offsets, ElemSize;
    var key := Chop(rawKey);
    var elemSize := ElemSize(|key|, datasize);
    ElemSizeExact(|key|, datasize);
    CapacityBound(chain, d, fs, body);
    if elemSize.None? {
      r := EndOf(mut, chain, d, fs, body);
      return r, None;
    }
    BodyHeld(chain, d, fs, body);
    var posOffset := pos.it.pos - mut.data.at;
    var spliced := SpliceBody(mut, Ptr(pos.buf, pos.it.pos), 0, elemSize.value, None, chain, d, fs, body, rel);
    if spliced.None? {
      r := EndOf(mut, chain, d, fs, body);
      return r, None;
    }
    var end;
    r, end := WriteHead(mut, spliced.value, posOffset, tag, key, datasize, chain, d, fs, body, rel);
    out := Some(end);
  }

  /** Write tag and key over the fill bytes and point an iterator at the new element. */
  method WriteHead(
      mut: Mut, at: Ptr, posOffset: nat, tag: byte, key: seq<byte>, datasize: uint32,
      ghost chain: seq<Mut>, ghost d: Doc, ghost fs: seq<Frame>, ghost body: seq<byte>, ghost rel: nat)
    returns (r: Cursor, out: Ptr)
    requires rel <= |body| && InSync(chain, d, fs, Splice(body, rel, 0, Repeat(FILL, |key| + 2 + datasize)))
    requires mut == chain[|fs|] && at == Ptr(d.buf, COOKIE + BodyPos(fs, 0, rel)) && posOffset == 4 + rel
    modifies d.buf
    ensures InSync(chain, d, fs, Splice(body, rel, 0, Head(tag, key) + Repeat(FILL, datasize)))
    ensures out == Ptr(d.buf, COOKIE + BodyPos(fs, 0, rel + 2 + |key|))
    ensures r == Cursor(d.buf, At(at.at, |key|, |body| - rel + 2 + |key| + datasize + 1))
  {
    hide InSync, Wrap, WrapSize, Splice, Patch, Offsets;
    ghost var filled := Splice(body, rel, 0, Repeat(FILL, |key| + 2 + datasize));
    ghost var before := d.buf[..];
    SyncedBytes(chain, d, fs, filled);
    BodyFits(d, fs, filled, rel, |key| + 2);
    var end := Memcpy(at.buf, at.at, Head(tag, key));
    OverwriteBody(before, chain, d, fs, filled, rel, Head(tag, key));
    HeadThenFill(body, rel, Head(tag, key), datasize);
    BodyHeld(chain, d, fs, Splice(body, rel, 0, Head(tag, key) + Repeat(FILL, datasize)));
    var size := ReadU32le(mut.data.buf[..][mut.data.at..]);
    r := Cursor(mut.data.buf, At(mut.data.at + posOffset, |key|, size - posOffset));
    out := Ptr(at.buf, end);
  }

  lemma BodyFits(d: Doc, fs: seq<Frame>, body: seq<byte>, rel: nat, n: nat)
    requires rel + n <= |body| && COOKIE + WrapSize(fs, |body|) <= d.buf.Length
    ensures COOKIE + BodyPos(fs, 0, rel) + n <= d.buf.Length
  {
    InnermostInside(fs, 0, |body|);
  }

  // ----- inserting a value

  /** The element that an insertion stores. */
  function NewElement(key: seq<byte>, v: ValueRef): Element {
    Element(Chop(key), Leaf(TagOf(v), Written(Normal(v))))
  }

  /** The tree with a new element before element `k` of the document at `path`. */
  function Inserted(es: seq<Element>, path: seq<nat>, k: nat, key: seq<byte>, v: ValueRef): seq<Element>
    requires ValidPath(es, path) && k <= |Inner(es, path)|
  {
    Update(es, path, Replace(Inner(es, path), k, k, [NewElement(key, v)]))
  }

  lemma NewElementSplice(inner: seq<Element>, k: nat, key: seq<byte>, v: ValueRef)
    requires k <= |inner|
    ensures var rel := ElemOffset(inner, k) - 4;
      var e := NewElement(key, v);
      && rel <= |EncodeList(inner)|
      && EncodeList(Replace(inner, k, k, [e]))
      == Splice(EncodeList(inner), rel, 0, Head(TagOf(v), Chop(key)) + Written(Normal(v)))
      && ElemOffset(Replace(inner, k, k, [e]), k) == ElemOffset(inner, k)
      && Replace(inner, k, k, [e])[k] == e
  {
    hide EncodeList, EncodeElement, Written, Chop;
    var e := NewElement(key, v);
    ReplaceIsSplice(inner, k, k, [e]);
    EncodeListSingle(e);
    ElementBytes(e);
    assert Head(TagOf(v), Chop(key)) + Written(Normal(v)) == EncodeElement(e);
    assert Replace(inner, k, k, [e])[..k] == inner[..k];
  }

  /** The iterator to a freshly inserted element. */
  lemma NewElementCursor(buf: array<byte>, es: seq<Element>, path: seq<nat>, k: nat, key: seq<byte>, v: ValueRef)
    requires ValidPath(es, path) && k <= |Inner(es, path)|
    ensures var es' := Inserted(es, path, k, key, v);
      var body, rel := EncodeList(Inner(es, path)), ElemOffset(Inner(es, path), k) - 4;
      && ValidPath(es', path) && k < |Inner(es', path)| && rel <= |body|
      && CursorAt(buf, es', path, k) == Cursor(buf,
        At(Base(es, path) + 4 + rel, |Chop(key)|, |body| - rel + 2 + |Chop(key)| + |Written(Normal(v))| + 1))
  {
    hide EncodeList, Written, Chop, Base;
    var inner := Inner(es, path);
    NewElementSplice(inner, k, key, v);
    UpdateKeepsBase(es, path, Replace(inner, k, k, [NewElement(key, v)]));
  }

  /** What became of an insertion. */
  datatype Effect =
    | Nothing   // it failed, or there was nothing to insert
    | Whole     // the element is stored
    | Spill     // the copy went on over the bytes behind its region
    | Escape    // the copy would go on over the end of the document; the model stops before it
    | Halt      // an assertion stopped the process

  /** The body with a new element at `rel` whose value region has `room` bytes, when `payload` is copied there. */
  function CopiedBody(body: seq<byte>, rel: nat, head: seq<byte>, payload: seq<byte>, room: nat): seq<byte>
    requires rel <= |body| && |payload| <= room + |body| - rel
  {
    body[..rel] + head + payload +
    if |payload| <= room then Repeat(FILL, room - |payload|) + body[rel..] else body[rel + |payload| - room..]
  }

  lemma CopyOverFill(body: seq<byte>, rel: nat, head: seq<byte>, payload: seq<byte>, room: nat)
    requires rel <= |body| && |payload| <= room + |body| - rel
    ensures var filled := Splice(body, rel, 0, head + Repeat(FILL, room));
      && rel + |head| + |payload| <= |filled|
      && Patch(filled, rel + |head|, payload) == CopiedBody(body, rel, head, payload, room)
  {
    var filled := Splice(body, rel, 0, head + Repeat(FILL, room));
    var copied := CopiedBody(body, rel, head, payload, room);
    assert |filled| == |copied|;
    assert forall i :: 0 <= i < |filled| ==> Patch(filled, rel + |head|, payload)[i] == copied[i];
  }

  lemma CopiedWhole(body: seq<byte>, rel: nat, head: seq<byte>, v: ValueRef)
    requires rel <= |body| && Insertable(v)
    ensures |Payload(Normal(v))| <= Room(v) == |Written(Normal(v))|
    ensures CopiedBody(body, rel, head, Payload(Normal(v)), Room(v))
         == Splice(body, rel, 0, head + Written(Normal(v)))
  {
    hide Payload, Normal, InRanges, Written, Slack, Room;
    ReservedExact(v);
    NormalKind(v);
  }

  /** The insertion in terms of the innermost body. */
  method StoreValue(
      mut: Mut, pos: Cursor, key: seq<byte>, val: ValueRef,
      ghost chain: seq<Mut>, ghost d: Doc, ghost fs: seq<Frame>, ghost body: seq<byte>, ghost rel: nat)
    returns (r: Cursor, effect: Effect)
    requires InSync(chain, d, fs, body) && mut == chain[|fs|]
    requires rel <= |body| && pos.buf == d.buf && pos.it.At? && pos.it.pos == COOKIE + BodyPos(fs, 0, rel)
    requires InRanges(val) && !val.CodeWithScope? && |key| <= Int.INT64_MAX
    modifies chain, d`buf, d.buf
    ensures d.buf == old(d.buf) || (fresh(d.buf) && old(d.buf)[..] == old(d.buf[..]))
    ensures effect == Nothing ==>
      && InSync(chain, d, fs, body) && d.buf == old(d.buf) && d.buf[..] == old(d.buf[..])
      && r == EndCursor(d.buf, fs, body)
    ensures effect != Nothing ==>
      r == Cursor(d.buf, At(pos.it.pos, |Chop(key)|, |body| - rel + 2 + |Chop(key)| + Room(val) + 1))
    ensures effect != Nothing ==> effect == EffectOf(val, |body| - rel)
    ensures effect == Whole || effect == Spill ==>
      InSync(chain, d, fs, CopiedBody(body, rel, Head(TagOf(val), Chop(key)), Payload(Normal(val)), Room(val)))
    ensures effect == Escape ==>
      InSync(chain, d, fs, Splice(body, rel, 0, Head(TagOf(val), Chop(key)) + Repeat(FILL, Room(val))))
    ensures WrapSize(fs, |body| + |Chop(key)| + 2 + Room(val)) <= old(d.Capacity()) ==>
      effect != Nothing && d.buf == old(d.buf)
  {
    hide InSync, Wrap, WrapSize, Splice, Patch, Offsets, ReservedSize, Payload, Normal, InRanges, Head, Chop, Room,
      CopiedBody, Insertable;
    ReservedExact(val);
    CapacityBound(chain, d, fs, body);
    var size := ReservedSize(val);
    if size.None? {
      r := EndOf(mut, chain, d, fs, body);
      return r, Nothing;
    }
    var out;
    r, out := PrepElementRegion(mut, pos, TagOf(val), key, size.value, chain, d, fs, body, rel);
    if out.None? {
      return r, Nothing;
    }
    effect := EffectOf(val, r.it.rlen - r.it.keylen - 3 - size.value);
    if effect != Escape {
      CopyValue(out.value, val, chain, d, fs, body, rel, Head(TagOf(val), Chop(key)));
    }
  }

  /** How far the copy of a value goes when `behind` bytes of the body follow its region. */
  function EffectOf(v: ValueRef, behind: int): Effect {
    if |Payload(Normal(v))| <= Room(v) then Whole
    else if |Payload(Normal(v))| <= Room(v) + behind then Spill
    else Escape
  }

  /** Normalising keeps the kind of a value. */
  lemma NormalKind(v: ValueRef)
    requires Insertable(v)
    ensures TagOf(Normal(v)) == TagOf(v) && Slack(Normal(v)) == Slack(v)
    ensures |Written(Normal(v))| == |Payload(Normal(v))| + Slack(v) && !Normal(v).CodeWithScope?
    ensures Written(Normal(v)) == Payload(Normal(v)) + Repeat(FILL, Slack(v))
  {
  }

  /** Write the value over its fill bytes. */
  method CopyValue(
      out: Ptr, val: ValueRef,
      ghost chain: seq<Mut>, ghost d: Doc, ghost fs: seq<Frame>, ghost body: seq<byte>, ghost rel: nat,
      ghost head: seq<byte>)
    requires !val.CodeWithScope? && rel <= |body| && |Payload(Normal(val))| <= Room(val) + |body| - rel
    requires InSync(chain, d, fs, Splice(body, rel, 0, head + Repeat(FILL, Room(val))))
    requires out == Ptr(d.buf, COOKIE + BodyPos(fs, 0, rel + |head|))
    modifies d.buf
    ensures InSync(chain, d, fs, CopiedBody(body, rel, head, Payload(Normal(val)), Room(val)))
  {
    hide InSync, Wrap, WrapSize, Splice, Patch, Offsets, Payload, Normal, BodyPos, Room, CopiedBody;
    ghost var before := d.buf[..];
    ghost var payload := Payload(Normal(val));
    ghost var filled := Splice(body, rel, 0, head + Repeat(FILL, Room(val)));
    NormalKeepsKind(val);
    SyncedBytes(chain, d, fs, filled);
    CopyOverFill(body, rel, head, payload, Room(val));
    BodyFits(d, fs, filled, rel + |head|, |payload|);
    var end := WritePayload(out.buf, out.at, Normal(val));
    OverwriteBody(before, chain, d, fs, filled, rel + |head|, payload);
  }

  /** A successful insertion: the chain tracks the new tree and `r` refers to the new element. */
  ghost predicate InsertedAt(
      r: Cursor, chain: seq<Mut>, d: Doc, es: seq<Element>, path: seq<nat>, k: nat, key: seq<byte>, v: ValueRef)
    requires ValidPath(es, path) && k <= |Inner(es, path)|
    reads chain, d, d.buf, d.empty
  {
    var es' := Inserted(es, path, k, key, v);
    && Tracks(chain, d, es', path) && k < |Inner(es', path)|
    && Inner(es', path)[k] == NewElement(key, v)
    && r == CursorAt(d.buf, es', path, k)
  }

  /** Where element `k` starts within the body of the innermost document. */
  function OffsetIn(es: seq<Element>, path: seq<nat>, k: nat): (n: nat)
    requires ValidPath(es, path) && k <= |Inner(es, path)|
    ensures n <= |EncodeList(Inner(es, path))|
  {
    ElemOffsetsAscend(Inner(es, path), k, |Inner(es, path)|);
    ElemOffset(Inner(es, path), k) - 4
  }

  /**
   `_bson_insert_value`, for any value. It fails with nothing changed and the past-the-end
   iterator; or the chain tracks the tree with the new element and the result refers to
   it. Code with scope stops the process. A regular expression that does not fit its
   region overwrites the bytes behind it: those of the elements that follow, as far as
   the body goes.
   */
  method InsertValue(
      mut: Mut, pos: Cursor, key: seq<byte>, val: ValueRef,
      ghost chain: seq<Mut>, ghost d: Doc, ghost es: seq<Element>, ghost path: seq<nat>, ghost k: nat)
    returns (r: Cursor, effect: Effect)
    requires Tracks(chain, d, es, path) && mut == chain[|path|]
    requires k <= |Inner(es, path)| && pos == CursorAt(d.buf, es, path, k)
    requires InRanges(val) && |key| <= Int.INT64_MAX
    modifies chain, d`buf, d.buf
    ensures d.buf == old(d.buf) || (fresh(d.buf) && old(d.buf)[..] == old(d.buf[..]))
    ensures effect == Halt <==> val.CodeWithScope?
    ensures effect == Whole ==> Insertable(val) && !Stop(r.it) && InsertedAt(r, chain, d, es, path, k, key, val)
    ensures effect == Nothing || effect == Halt ==>
      Tracks(chain, d, es, path) && d.buf == old(d.buf) && d.buf[..] == old(d.buf[..])
    ensures effect == Nothing ==>
      && Stop(CursorAt(d.buf, es, path, |Inner(es, path)|).it)
      && r == if val.Eod? then pos else CursorAt(d.buf, es, path, |Inner(es, path)|)
    ensures effect == Spill || effect == Escape ==>
      && val.Regex? && !RegexFits(val)
      && effect == EffectOf(val, |EncodeList(Inner(es, path))| - OffsetIn(es, path, k))
      && ChildOffsets(chain, es, path)
    ensures effect == Spill ==>
      InSync(chain, d, FramesOf(es, path), CopiedBody(EncodeList(Inner(es, path)), OffsetIn(es, path, k),
        Head(0xB, Chop(key)), Payload(val), Room(val)))
    ensures effect == Escape ==>
      InSync(chain, d, FramesOf(es, path), Splice(EncodeList(Inner(es, path)), OffsetIn(es, path, k), 0,
        Head(0xB, Chop(key)) + Repeat(FILL, Room(val))))
    ensures val.Eod? ==> effect == Nothing
    ensures Insertable(val) ==> effect == Nothing || effect == Whole
    ensures !val.Eod? && |EncodeDoc(es)| + |Chop(key)| + 2 + Room(val) <= old(d.Capacity()) ==>
      effect != Nothing && d.buf == old(d.buf)
    ensures Insertable(val) ==> |EncodeElement(NewElement(key, val))| == |Chop(key)| + 2 + Room(val)
  {
    hide InSync, EncodeDoc, EncodeList, EncodeElement, WrapSize, Splice, Offsets, FramesOf, InRanges, NewElement,
      Written, Insertable, Room, Payload, Normal, CopiedBody, Head;
    ghost var fs, body, rel := FramesOf(es, path), EncodeList(Inner(es, path)), OffsetIn(es, path, k);
    EncodedSize(es, path);
    NewElementSize(key, val);
    SizesShift(fs, |body| + |Chop(key)| + 2 + Room(val), |body|);
    NewElementSplice(Inner(es, path), k, key, val);
    EndCursorIsAtEnd(d.buf, es, path);
    InsertReady(val, body, rel, Head(TagOf(val), Chop(key)));
    if val.Eod? {
      return pos, Nothing;
    } else if val.CodeWithScope? {
      return pos, Halt;
    }
    r, effect := StoreValue(mut, pos, key, val, chain, d, fs, body, rel);
    if effect == Whole {
      TracksUpdated(chain, d, es, path, Replace(Inner(es, path), k, k, [NewElement(key, val)]));
      UpdateKeepsBase(es, path, Replace(Inner(es, path), k, k, [NewElement(key, val)]));
      NewElementCursor(d.buf, es, path, k, key, val);
    }
  }

  /** What an insertion knows of its value before it starts. */
  lemma InsertReady(v: ValueRef, body: seq<byte>, rel: nat, head: seq<byte>)
    requires InRanges(v) && rel <= |body|
    ensures v.CodeWithScope? ==> !Insertable(v)
    ensures !v.CodeWithScope? ==> (Insertable(v) <==> |Payload(Normal(v))| <= Room(v))
    ensures !v.CodeWithScope? && !Insertable(v) ==> v.Regex? && !RegexFits(v) && Normal(v) == v && TagOf(v) == 0xB
    ensures Insertable(v) ==>
      && Room(v) == |Written(Normal(v))|
      && CopiedBody(body, rel, head, Payload(Normal(v)), Room(v)) == Splice(body, rel, 0, head + Written(Normal(v)))
  {
    hide InRanges, Payload, Room, Written, CopiedBody;
    if !v.CodeWithScope? {
      ReservedExact(v);
      if Insertable(v) {
        CopiedWhole(body, rel, head, v);
      }
    }
  }

  lemma EncodedSize(es: seq<Element>, path: seq<nat>)
    requires ValidPath(es, path)
    ensures |EncodeDoc(es)| == WrapSize(FramesOf(es, path), |EncodeList(Inner(es, path))|)
  {
    hide WrapSize, FramesOf, EncodeList, EncodeDoc;
    EncodeIsWrapped(es, path);
  }

  lemma NewElementSize(key: seq<byte>, v: ValueRef)
    ensures |EncodeElement(NewElement(key, v))| == |Chop(key)| + 2 + |Written(Normal(v))|
  {
    hide Chop, Written;
  }

  // ----- insert, then read

  /**
   The round trip, for every value that can be inserted: at the iterator that an
   insertion returns, the reader finds the key up to its first NUL and the stored form
   of the value. That is the same value exactly when it is no empty string (on which an
   assertion trips), no null view (which becomes an empty document), no dbpointer with a
   NUL in its collection name (which is cut there) and no regular expression with a NUL.
   */
  lemma InsertedReadsBack(
      r: Cursor, chain: seq<Mut>, d: Doc, es: seq<Element>, path: seq<nat>, k: nat, key: seq<byte>, v: ValueRef)
    requires ValidPath(es, path) && k <= |Inner(es, path)|
    requires InsertedAt(r, chain, d, es, path, k, key, v) && Insertable(v)
    ensures var mem := d.buf[..];
      && Produced(mem, r.it) && !Stop(r.it)
      && DataSize(mem, r.it) == |Chop(key)| + 2 + MeasuredSize(Normal(v))
      && Key(mem, r.it) == Chop(key)
      && ReadStaysInside(mem, r.it)
      && ReadValue(mem, r.it) == (if ReadsBack(v) then Some(ReadForm(Normal(v))) else None)
      && (ReadValue(mem, r.it) == Some(v) <==> ReadsBack(v) && Normal(v) == v && NulFree(v))
  {
    hide EncodeDoc, Payload, InSync, WellFormed, ReadValue, ReadsBack, Holds, Pad, Insertable, MeasuredSize;
    var es' := Inserted(es, path, k, key, v);
    InnerHeld(chain, d, es', path);
    WrittenIsPadded(Normal(v));
    NormalKeepsKind(v);
    InsertedFits(chain, d, es, path, k, key, v);
    NormalWellFormed(v);
    StoredValueIsRead(d.buf[..], Base(es', path), Inner(es', path), k, Normal(v), Pad(Normal(v)));
  }

  lemma InsertedFits(
      chain: seq<Mut>, d: Doc, es: seq<Element>, path: seq<nat>, k: nat, key: seq<byte>, v: ValueRef)
    requires ValidPath(es, path) && k <= |Inner(es, path)|
    requires ValidPath(Inserted(es, path, k, key, v), path)
    requires k < |Inner(Inserted(es, path, k, key, v), path)|
    requires Inner(Inserted(es, path, k, key, v), path)[k] == NewElement(key, v)
    requires Tracks(chain, d, Inserted(es, path, k, key, v), path)
    ensures |Payload(Normal(v))| < INT32_MAX
  {
    hide EncodeDoc, EncodeList, EncodeElement, Payload, InSync, Holds, Chop, Pad, NewElement;
    var inner := Inner(Inserted(es, path, k, key, v), path);
    InnerHeld(chain, d, Inserted(es, path, k, key, v), path);
    EncodeListPick(inner, k);
    NewElementSize(key, v);
  }

  /** The reader rejects what starts with fill bytes. */
  lemma FillMalformed(s: seq<byte>)
    requires ToTerminator(s) && |s| > 1 && s[0] == FILL
    ensures ElementAt(s).Malformed?
  {
    hide KeyLen;
  }

  /** A regular expression with a NUL can be inserted and is read as two other strings. */
  lemma NulRegexChanges()
    ensures var v := Regex([0x61, 0, 0x62], []);
      Insertable(v) && ReadsBack(v) && Normal(v) == v && ReadForm(v) == Regex([0x61], [0x62])
  {
    var regex: seq<byte> := [0x61, 0, 0x62];
    var p := regex + [0] + [] + [0];
    assert p == [0x61, 0, 0x62, 0, 0];
    assert p[0] != 0 && p[1] == 0;
    FirstNulUnique(p, Strlen(p), 1);
    assert p[2..] == [0x62, 0, 0];
    assert p[2..][0] != 0 && p[2..][1] == 0;
    FirstNulUnique(p[2..], Strlen(p[2..]), 1);
    assert p[..1] == [0x61] && p[2..][..1] == [0x62];
    ChopAt(regex, 1);
  }

  /** With more bytes behind its NUL the copy of a regular expression overruns its region. */
  lemma NulRegexOverruns()
    ensures var v := Regex([0x61, 0, 0x62, 0x62, 0x62], []);
      !RegexFits(v) && |Payload(v)| > |Chop(v.regex)| + |Chop(v.options)| + 5
  {
    var regex: seq<byte> := [0x61, 0, 0x62, 0x62, 0x62];
    ChopAt(regex, 1);
    RegexFitsIff(Regex(regex, []));
  }

  lemma ChopAt(s: seq<byte>, n: nat)
    requires n < |s| && s[n] == 0 && 0 !in s[..n]
    ensures |Chop(s)| == n
  {
    FirstNulUnique(s, Strnlen(s, |s|), n);
  }

  /**
   Iterating after an insertion yields the old elements with exactly the new one
   spliced in, if and only if the value is neither a regular expression nor a dbpointer:
   behind one of those the walk goes on within the element.
   */
  lemma InsertedWalk(
      r: Cursor, chain: seq<Mut>, d: Doc, es: seq<Element>, path: seq<nat>, k: nat, key: seq<byte>, v: ValueRef)
    requires ValidPath(es, path) && k <= |Inner(es, path)|
    requires InsertedAt(r, chain, d, es, path, k, key, v)
    requires forall i :: 0 <= i < |Inner(es, path)| ==> ReadableElement(Inner(es, path)[i])
    requires Insertable(v)
    ensures var inner' := Replace(Inner(es, path), k, k, [NewElement(key, v)]);
      VisitsExactly(d.buf[..], Base(es, path), inner', 0) <==> !v.Regex? && !v.DbPointer?
  {
    hide EncodeDoc, EncodeList, Payload, InSync, WellFormed, Holds, ReadableElement, IterFor, Walk, Base, Replace;
    hide CursorAt, Insertable;
    var inner' := Replace(Inner(es, path), k, k, [NewElement(key, v)]);
    UpdateKeepsBase(es, path, inner');
    InnerHeld(chain, d, Inserted(es, path, k, key, v), path);
    if v.Regex? || v.DbPointer? {
      BrokenWalk(r, chain, d, es, path, k, key, v);
    } else {
      InsertedFits(chain, d, es, path, k, key, v);
      NormalWellFormed(v);
      NewElementReadable(key, v);
      StaysReadable(Inner(es, path), k, NewElement(key, v));
      WalkVisitsElements(d.buf[..], Base(es, path), inner', 0);
    }
  }

  /** A walk that visits exactly the elements goes from each one to the next. */
  lemma {:induction false} ExactWalkSteps(mem: seq<byte>, base: nat, es: seq<Element>, k: nat, n: nat)
    requires k <= n < |es| && VisitsExactly(mem, base, es, k)
    ensures Produced(mem, IterFor(es, n, base)) && !Stop(IterFor(es, n, base))
    ensures Next(mem, IterFor(es, n, base)) == IterFor(es, n + 1, base)
    decreases n - k
  {
    ExactWalkFirst(mem, base, es, k);
    hide *;
    if k < n {
      ExactWalkSteps(mem, base, es, k + 1, n);
    }
  }

  lemma ExactWalkFirst(mem: seq<byte>, base: nat, es: seq<Element>, k: nat)
    requires k < |es| && VisitsExactly(mem, base, es, k)
    ensures Produced(mem, IterFor(es, k, base)) && !Stop(IterFor(es, k, base))
    ensures Next(mem, IterFor(es, k, base)) == IterFor(es, k + 1, base)
    ensures VisitsExactly(mem, base, es, k + 1)
  {
    hide IterFor, Next, Walk, Produced, Stop;
    var it := IterFor(es, k, base);
    var t := Walk(mem, it);
    WalkStep(mem, it);
    assert t.visited[0] == it && !Stop(it);
    var rest := Walk(mem, Next(mem, it));
    WalkStep(mem, Next(mem, it));
    assert forall i :: 0 <= i < |rest.visited| ==> rest.visited[i] == t.visited[i + 1];
    if k + 1 < |es| {
      assert rest.visited[0] == IterFor(es, k + 1, base);
    }
  }

  /** Behind a regular expression or a dbpointer the next iterator is not that of the next element. */
  lemma BrokenWalk(
      r: Cursor, chain: seq<Mut>, d: Doc, es: seq<Element>, path: seq<nat>, k: nat, key: seq<byte>, v: ValueRef)
    requires ValidPath(es, path) && k <= |Inner(es, path)|
    requires InsertedAt(r, chain, d, es, path, k, key, v)
    requires Insertable(v) && (v.Regex? || v.DbPointer?)
    ensures var inner' := Replace(Inner(es, path), k, k, [NewElement(key, v)]);
      !VisitsExactly(d.buf[..], Base(es, path), inner', 0)
  {
    hide EncodeDoc, EncodeList, EncodeElement, Payload, InSync, WellFormed, Holds, ReadableElement, Walk, Base,
      VisitsExactly, Chop, ReadValue, DataSize, IteratorAt, Insertable, MeasuredSize;
    var inner := Inner(es, path);
    var inner' := Replace(inner, k, k, [NewElement(key, v)]);
    var mem, base := d.buf[..], Base(es, path);
    UpdateKeepsBase(es, path, inner');
    InsertedReadsBack(r, chain, d, es, path, k, key, v);
    EncodeListPickHead(inner', k);
    NewElementSize(key, v);
    StoredShort(v);
    var it := IterFor(inner', k, base);
    assert r.it == it;
    assert IterFor(inner', k + 1, base).pos == it.pos + |EncodeElement(NewElement(key, v))|;
    if VisitsExactly(mem, base, inner', 0) {
      ExactWalkSteps(mem, base, inner', 0, k);
    }
  }

  lemma StaysReadable(inner: seq<Element>, k: nat, e: Element)
    requires k <= |inner| && ReadableElement(e)
    requires forall i :: 0 <= i < |inner| ==> ReadableElement(inner[i])
    ensures forall i :: 0 <= i < |inner| + 1 ==> ReadableElement(Replace(inner, k, k, [e])[i])
    ensures |Replace(inner, k, k, [e])| == |inner| + 1
  {
    hide ReadableElement;
    var inner' := Replace(inner, k, k, [e]);
    forall i | 0 <= i < |inner| + 1
      ensures ReadableElement(inner'[i])
    {
      assert inner'[i] == if i < k then inner[i] else if i == k then e else inner[i - 1];
    }
  }

  lemma NewElementReadable(key: seq<byte>, v: ValueRef)
    requires WellFormed(Normal(v)) && !v.Regex? && !v.DbPointer? && !v.CodeWithScope?
    ensures ReadableElement(NewElement(key, v))
  {
    hide Payload, WellFormed, Delimited, Chop;
    WrittenIsPadded(Normal(v));
    assert Payload(Normal(v)) + [] == Payload(Normal(v));
    KindsDelimited(Normal(v));
    NormalKeepsKind(v);
  }

  // ----- code with scope

  /** The region that `bson_insert_code_with_scope` asks for, in checked arithmetic. */
  function CodeScopeRegion(len: Int.size_t, scopeSize: uint32): Option<uint32> {
    var size := Int.CastPositiveInt32(Int.Add(Int.FromI64(1), Int.FromU64(len), false));
    var total := Int.CastPositiveInt32(
      Int.Add(Int.FromI64(size.i64), Int.Add(Int.FromI64(scopeSize), Int.FromI64(4), false), false));
    if size.flags == {} && total.flags == {} then Some(total.i64) else None
  }

  /** What it writes into a region of `region` bytes: both sizes, the code without a terminator, the scope. */
  function CodeScopeBytes(s: seq<byte>, scope: seq<byte>, region: uint32): seq<byte> {
    U32le(region) + U32le(|s| + 1) + s + scope
  }

  /** It always writes three bytes behind its region, and never what the specification asks for. */
  lemma CodeScopeOverruns(s: seq<byte>, scope: seq<byte>)
    requires |s| < 0x1_0000_0000_0000_0000 && IsView(scope) && |scope| <= INT32_MAX
    ensures var n := |s| + |scope| + 5;
      CodeScopeRegion(|s|, |scope|) == if n <= INT32_MAX then Some(n) else None
    ensures var region := CodeScopeRegion(|s|, |scope|);
      region.Some? ==>
        && |CodeScopeBytes(s, scope, region.value)| == region.value + 3
        && CodeScopeBytes(s, scope, region.value) != Payload(CodeWithScope(s, scope))
  {
    hide U32le, IsView;
    assert |Payload(CodeWithScope(s, scope))| == |s| + |scope| + 9;
  }
}
