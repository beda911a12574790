/**
 The document builder (`include/bson/make.hpp`): rule trees, the size they announce,
 the tree they build, and by how much the two differ.
 */
module Make {
  import opened Bytes
  import opened Document
  import opened Values
  import opened Tracking
  import opened Insertion
  import opened Decimal

  /** `Array` is both `array`, which lists its values, and `range`, which iterates over them. */
  datatype ValueRule =
    | Value(v: ValueRef)
    | Array(vs: seq<ValueRule>)
    | Doc(es: seq<ElementRule>)
    | OptionalValue(opt: Option<ValueRule>)

  datatype ElementRule =
    | Pair(key: seq<byte>, value: ValueRule)
    | OptionalPair(key: seq<byte>, opt: Option<ValueRule>)
    | Conditional(rule: Option<ElementRule>)

  // ----- the announced size

  function StringByteSize(s: seq<byte>): nat {
    |s| + 1 + 4
  }

  /** `value_byte_size` of the values that can be stored directly. */
  function ValueByteSize(v: ValueRef): nat {
    match v
    case Double(_) => 8
    case Utf8(s) => StringByteSize(s)
    case DocumentRef(view) => |view|
    case ArrayRef(view) => |view|
    case Binary(_, data) => 4 + 1 + |data|
    case Oid(_) => 12
    case Bool(_) => 1
    case DateTime(_) => 8
    case Regex(regex, options) => |regex| + 1 + |options| + 1
    case DbPointer(collection, _) => StringByteSize(collection) + 12
    case Code(s) => StringByteSize(s)
    case Symbol(s) => StringByteSize(s)
    case Int32(_) => 4
    case Timestamp(_, _) => 8
    case Int64(_) => 8
    case Decimal128(_) => 16
    case _ => 0
  }

  /** `byte_size` of a value rule. */
  function ValueSize(r: ValueRule): nat
    decreases r, 1
  {
    match r
    case Value(v) => ValueByteSize(v)
    case Array(vs) => ArraySize(vs)
    case Doc(es) => DocSize(es)
    case OptionalValue(opt) => if opt.Some? then ValueSize(opt.value) else 0
  }

  function ArraySize(vs: seq<ValueRule>): nat
    decreases vs, 0
  {
    if vs == [] then 0
    else
      var n := |vs| - 1;
      ArraySize(vs[..n]) + (|Spell(n)| + 1 + 1) + ValueSize(vs[n])
  }

  function ElementSize(e: ElementRule): nat
    decreases e, 1
  {
    match e
    case Pair(key, value) => 1 + |key| + 1 + ValueSize(value)
    case OptionalPair(key, opt) => if opt.Some? then 1 + |key| + 1 + ValueSize(opt.value) else 0
    case Conditional(rule) => if rule.Some? then ElementSize(rule.value) else 0
  }

  /** `doc::byte_size`. */
  function DocSize(es: seq<ElementRule>): nat
    decreases es, 0
  {
    if es == [] then 0
    else
      var n := |es| - 1;
      DocSize(es[..n]) + ElementSize(es[n])
  }

  /** `range::byte_size`, by its loop. */
  method RangeByteSize(vs: seq<ValueRule>) returns (acc: nat)
    ensures acc == ArraySize(vs)
  {
    acc := 0;
    var idx := 0;
    while idx < |vs|
      invariant idx <= |vs| && acc == ArraySize(vs[..idx])
    {
      var digits := NumDigits(idx);
      acc := acc + digits + 1 + 1;
      acc := acc + ValueSize(vs[idx]);
      assert vs[..idx + 1][..idx] == vs[..idx];
      idx := idx + 1;
    }
    assert vs[..|vs|] == vs;
  }

  // ----- the tree that is built

  /** The elements that a value rule appends under a key: one, or none for an absent optional. */
  function Appended(r: ValueRule, key: seq<byte>): seq<Element>
    decreases r, 1
  {
    match r
    case Value(v) => [NewElement(key, v)]
    case Array(vs) => [Element(Chop(key), Sub(true, ArrayElements(vs)))]
    case Doc(es) => [Element(Chop(key), Sub(false, DocElements(es)))]
    case OptionalValue(opt) => if opt.Some? then Appended(opt.value, key) else []
  }

  /** The key of array slot `n`, which is numbered in 32 bits. */
  function SlotKey(n: nat): seq<byte> {
    Spell(n % 0x1_0000_0000)
  }

  function ArrayElements(vs: seq<ValueRule>): seq<Element>
    decreases vs, 0
  {
    if vs == [] then []
    else
      var n := |vs| - 1;
      ArrayElements(vs[..n]) + Appended(vs[n], SlotKey(n))
  }

  function ElementAppended(e: ElementRule): seq<Element>
    decreases e, 1
  {
    match e
    case Pair(key, value) => Appended(value, key)
    case OptionalPair(key, opt) => if opt.Some? then Appended(opt.value, key) else []
    case Conditional(rule) => if rule.Some? then ElementAppended(rule.value) else []
  }

  function DocElements(es: seq<ElementRule>): seq<Element>
    decreases es, 0
  {
    if es == [] then []
    else
      var n := |es| - 1;
      DocElements(es[..n]) + ElementAppended(es[n])
  }

  /** The values are such as can be inserted; an end-of-document value is none. */
  ghost predicate Storable(r: ValueRule)
    decreases r, 1
  {
    match r
    case Value(v) => Insertable(v) && !v.Eod?
    case Array(vs) => forall i :: 0 <= i < |vs| ==> Storable(vs[i])
    case Doc(es) => forall i :: 0 <= i < |es| ==> ElementStorable(es[i])
    case OptionalValue(opt) => opt.Some? ==> Storable(opt.value)
  }

  ghost predicate ElementStorable(e: ElementRule)
    decreases e, 1
  {
    match e
    case Pair(_, value) => Storable(value)
    case OptionalPair(_, opt) => opt.Some? ==> Storable(opt.value)
    case Conditional(rule) => rule.Some? ==> ElementStorable(rule.value)
  }

  // ----- where the announced size is off

  /** Nothing is appended. */
  predicate Absent(r: ValueRule) {
    r.OptionalValue? && (r.opt.None? || Absent(r.opt.value))
  }

  /** Bytes of a stored value that its announced size leaves out: regex slack and the document behind a null view. */
  function Uncounted(v: ValueRef): nat {
    match v
    case Regex(_, _) => Slack(v)
    case DocumentRef(view) => if view == [] then 5 else 0
    case ArrayRef(view) => if view == [] then 5 else 0
    case _ => 0
  }

  /** Bytes of a value that are counted and then cut off: those after a NUL in a collection name. */
  function Cut(v: ValueRef): nat {
    if v.DbPointer? then |v.collection| - |Chop(v.collection)| else 0
  }

  /** Five bytes for each nested document and array, and the uncounted bytes of the values. */
  function Under(r: ValueRule): nat
    decreases r, 1
  {
    match r
    case Value(v) => Uncounted(v)
    case Array(vs) => 5 + ArrayUnder(vs)
    case Doc(es) => 5 + DocUnder(es)
    case OptionalValue(opt) => if opt.Some? then Under(opt.value) else 0
  }

  function ArrayUnder(vs: seq<ValueRule>): nat
    decreases vs, 0
  {
    if vs == [] then 0 else ArrayUnder(vs[..|vs| - 1]) + Under(vs[|vs| - 1])
  }

  function ElementUnder(e: ElementRule): nat
    decreases e, 1
  {
    match e
    case Pair(_, value) => Under(value)
    case OptionalPair(_, opt) => if opt.Some? then Under(opt.value) else 0
    case Conditional(rule) => if rule.Some? then ElementUnder(rule.value) else 0
  }

  function DocUnder(es: seq<ElementRule>): nat
    decreases es, 0
  {
    if es == [] then 0 else DocUnder(es[..|es| - 1]) + ElementUnder(es[|es| - 1])
  }

  /** Of a counted key, what is not written: all of it with tag and terminator, or what follows a NUL. */
  function KeyOver(r: ValueRule, counted: nat, key: seq<byte>): int {
    if Absent(r) then counted + 2 else counted - |Chop(key)|
  }

  /** Bytes counted within a value but not written. */
  function Over(r: ValueRule): int
    decreases r, 1
  {
    match r
    case Value(v) => Cut(v)
    case Array(vs) => ArrayOver(vs)
    case Doc(es) => DocOver(es)
    case OptionalValue(opt) => if opt.Some? then Over(opt.value) else 0
  }

  function ArrayOver(vs: seq<ValueRule>): int
    decreases vs, 0
  {
    if vs == [] then 0
    else
      var n := |vs| - 1;
      ArrayOver(vs[..n]) + KeyOver(vs[n], |Spell(n)|, SlotKey(n)) + Over(vs[n])
  }

  function ElementOver(e: ElementRule): int
    decreases e, 1
  {
    match e
    case Pair(key, value) => KeyOver(value, |key|, key) + Over(value)
    case OptionalPair(key, opt) => if opt.Some? then KeyOver(opt.value, |key|, key) + Over(opt.value) else 0
    case Conditional(rule) => if rule.Some? then ElementOver(rule.value) else 0
  }

  function DocOver(es: seq<ElementRule>): int
    decreases es, 0
  {
    if es == [] then 0 else DocOver(es[..|es| - 1]) + ElementOver(es[|es| - 1])
  }

  // ----- the size law

  lemma WrittenSize(v: ValueRef)
    requires Insertable(v) && !v.Eod?
    ensures |Written(Normal(v))| + Cut(v) == ValueByteSize(v) + Uncounted(v)
  {
  }

  lemma {:induction false} ValueLaw(r: ValueRule, key: seq<byte>)
    requires Storable(r)
    ensures |EncodeList(Appended(r, key))| + Over(r)
         == (if Absent(r) then 0 else 2 + |Chop(key)|) + ValueSize(r) + Under(r)
    decreases r, 1
  {
    hide Chop, Normal, Written, ValueByteSize, Uncounted, Cut, Insertable, EncodeList, EncodeElement;
    match r
    case Value(v) =>
      WrittenSize(v);
      NewElementSize(key, v);
      EncodeListSingle(NewElement(key, v));
    case Array(vs) =>
      ArrayLaw(vs);
      SubSize(Chop(key), true, ArrayElements(vs));
    case Doc(es) =>
      DocLaw(es);
      SubSize(Chop(key), false, DocElements(es));
    case OptionalValue(opt) =>
      if opt.Some? {
        ValueLaw(opt.value, key);
      } else {
        EncodeNothing();
      }
  }

  lemma EncodeNothing()
    ensures EncodeList([]) == []
  {
  }

  lemma SubSize(key: seq<byte>, isArray: bool, es: seq<Element>)
    ensures |EncodeList([Element(key, Sub(isArray, es))])| == 2 + |key| + 5 + |EncodeList(es)|
  {
    EncodeListSingle(Element(key, Sub(isArray, es)));
  }

  lemma {:induction false} ArrayLaw(vs: seq<ValueRule>)
    requires forall i :: 0 <= i < |vs| ==> Storable(vs[i])
    ensures |EncodeList(ArrayElements(vs))| + ArrayOver(vs) == ArraySize(vs) + ArrayUnder(vs)
    decreases vs, 0
  {
    hide EncodeList, Chop, Spell, Appended, Over, Under, ValueSize, Absent, Storable;
    if vs == [] {
      EncodeNothing();
    } else {
      var n := |vs| - 1;
      ArrayLaw(vs[..n]);
      ValueLaw(vs[n], SlotKey(n));
      EncodeListAppend(ArrayElements(vs[..n]), Appended(vs[n], SlotKey(n)));
    }
  }

  lemma {:induction false} ElementLaw(e: ElementRule)
    requires ElementStorable(e)
    ensures |EncodeList(ElementAppended(e))| + ElementOver(e) == ElementSize(e) + ElementUnder(e)
    decreases e, 1
  {
    hide EncodeList, Chop, Appended, Over, Under, ValueSize, Absent, Storable;
    EncodeNothing();
    match e
    case Pair(key, value) => ValueLaw(value, key);
    case OptionalPair(key, opt) =>
      if opt.Some? {
        ValueLaw(opt.value, key);
      }
    case Conditional(rule) =>
      if rule.Some? {
        ElementLaw(rule.value);
      }
  }

  /** What `build` writes into the body of a document, measured against `byte_size`. */
  lemma {:induction false} DocLaw(es: seq<ElementRule>)
    requires forall i :: 0 <= i < |es| ==> ElementStorable(es[i])
    ensures |EncodeList(DocElements(es))| + DocOver(es) == DocSize(es) + DocUnder(es)
    decreases es, 0
  {
    hide EncodeList, ElementAppended, ElementOver, ElementUnder, ElementSize, ElementStorable;
    if es == [] {
      EncodeNothing();
    } else {
      var n := |es| - 1;
      DocLaw(es[..n]);
      ElementLaw(es[n]);
      EncodeListAppend(DocElements(es[..n]), ElementAppended(es[n]));
    }
  }

  /** The built document against `byte_size`, and when reserving `byte_size` bytes is enough for it. */
  lemma BuilderSizeLaw(es: seq<ElementRule>)
    requires forall i :: 0 <= i < |es| ==> ElementStorable(es[i])
    ensures |EncodeDoc(DocElements(es))| == DocSize(es) + 5 + DocUnder(es) - DocOver(es)
    ensures |EncodeDoc(DocElements(es))| <= DocSize(es) <==> 5 + DocUnder(es) <= DocOver(es)
  {
    DocLaw(es);
  }

  // ----- plain rules

  /** No absent value takes a slot, no key or collection name has a NUL, and no array is longer than 2^32. */
  ghost predicate Plain(r: ValueRule)
    decreases r, 1
  {
    match r
    case Value(v) => v.DbPointer? ==> 0 !in v.collection
    case Array(vs) => |vs| <= 0x1_0000_0000 && forall i :: 0 <= i < |vs| ==> Plain(vs[i]) && !Absent(vs[i])
    case Doc(es) => forall i :: 0 <= i < |es| ==> ElementPlain(es[i])
    case OptionalValue(opt) => opt.Some? ==> Plain(opt.value)
  }

  ghost predicate ElementPlain(e: ElementRule)
    decreases e, 1
  {
    match e
    case Pair(key, value) => 0 !in key && Plain(value) && !Absent(value)
    case OptionalPair(key, opt) => opt.Some? ==> 0 !in key && Plain(opt.value) && !Absent(opt.value)
    case Conditional(rule) => rule.Some? ==> ElementPlain(rule.value)
  }

  lemma {:induction false} PlainOver(r: ValueRule)
    requires Plain(r)
    ensures Over(r) == 0
    decreases r, 1
  {
    hide Chop;
    match r
    case Value(v) =>
      if v.DbPointer? {
        ChopKeeps(v.collection);
      }
    case Array(vs) => PlainArrayOver(vs);
    case Doc(es) => PlainDocOver(es);
    case OptionalValue(opt) =>
      if opt.Some? {
        PlainOver(opt.value);
      }
  }

  lemma {:induction false} PlainArrayOver(vs: seq<ValueRule>)
    requires |vs| <= 0x1_0000_0000 && forall i :: 0 <= i < |vs| ==> Plain(vs[i]) && !Absent(vs[i])
    ensures ArrayOver(vs) == 0
    decreases vs, 0
  {
    hide Chop, Spell, Absent, Plain, Over;
    if vs != [] {
      var n := |vs| - 1;
      PlainArrayOver(vs[..n]);
      PlainOver(vs[n]);
      ChopKeeps(SlotKey(n));
    }
  }

  lemma {:induction false} PlainElementOver(e: ElementRule)
    requires ElementPlain(e)
    ensures ElementOver(e) == 0
    decreases e, 1
  {
    hide Chop, Absent, Plain, Over;
    match e
    case Pair(key, value) =>
      PlainOver(value);
      ChopKeeps(key);
    case OptionalPair(key, opt) =>
      if opt.Some? {
        PlainOver(opt.value);
        ChopKeeps(key);
      }
    case Conditional(rule) =>
      if rule.Some? {
        PlainElementOver(rule.value);
      }
  }

  lemma {:induction false} PlainDocOver(es: seq<ElementRule>)
    requires forall i :: 0 <= i < |es| ==> ElementPlain(es[i])
    ensures DocOver(es) == 0
    decreases es, 0
  {
    hide ElementOver, ElementPlain;
    if es != [] {
      PlainDocOver(es[..|es| - 1]);
      PlainElementOver(es[|es| - 1]);
    }
  }

  /**
   For plain rules the reservation is always short: by five bytes, five more for each
   nested document or array, and the uncounted value bytes.
   */
  lemma PlainSizeLaw(es: seq<ElementRule>)
    requires forall i :: 0 <= i < |es| ==> ElementStorable(es[i]) && ElementPlain(es[i])
    ensures |EncodeDoc(DocElements(es))| == DocSize(es) + 5 + DocUnder(es)
  {
    PlainDocOver(es);
    BuilderSizeLaw(es);
  }
}
