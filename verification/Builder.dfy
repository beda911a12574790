/**
 Building documents (`append_to` and `build` in `include/bson/make.hpp`): the rules are
 appended through a chain of mutators, one more for each nested document or array,
 into a document that starts out with the announced size reserved.
 */
module Builder {
  import opened Bytes
  import opened Frames
  import opened Document
  import opened Iteration
  import opened Reading
  import opened Values
  import opened Storage
  import opened Mutator
  import opened Tracking
  import opened Insertion
  import opened Nesting
  import opened Decimal
  import opened Make
  import opened Refusals
  import Int = Integer

  /** The tree with elements added at the end of the document at `path`. */
  function Grown(es: seq<Element>, path: seq<nat>, added: seq<Element>): seq<Element>
    requires ValidPath(es, path)
  {
    Update(es, path, Inner(es, path) + added)
  }

  /** The ranges that the C++ types give keys and values. */
  ghost predicate InRange(r: ValueRule)
    decreases r, 1
  {
    match r
    case Value(v) => v.CodeWithScope? || Insertable(v)
    case Array(vs) => forall i :: 0 <= i < |vs| ==> InRange(vs[i])
    case Doc(es) => forall i :: 0 <= i < |es| ==> ElementInRange(es[i])
    case OptionalValue(opt) => opt.Some? ==> InRange(opt.value)
  }

  ghost predicate ElementInRange(e: ElementRule)
    decreases e, 1
  {
    match e
    case Pair(key, value) => |key| <= Int.INT64_MAX && InRange(value)
    case OptionalPair(key, opt) => |key| <= Int.INT64_MAX && (opt.Some? ==> InRange(opt.value))
    case Conditional(rule) => rule.Some? ==> ElementInRange(rule.value)
  }

  // ----- growing

  lemma GrowNothing(es: seq<Element>, path: seq<nat>)
    requires ValidPath(es, path)
    ensures Grown(es, path, []) == es
  {
    assert Inner(es, path) + [] == Inner(es, path);
    UpdateSame(es, path);
  }

  lemma GrowTwice(es: seq<Element>, path: seq<nat>, a: seq<Element>, b: seq<Element>)
    requires ValidPath(es, path)
    ensures ValidPath(Grown(es, path, a), path) && Inner(Grown(es, path, a), path) == Inner(es, path) + a
    ensures Grown(Grown(es, path, a), path, b) == Grown(es, path, a + b)
  {
    var inner := Inner(es, path);
    UpdateKeepsFrames(es, path, inner + a);
    UpdateTwice(es, path, inner + a, inner + a + b);
    assert inner + a + b == inner + (a + b);
  }

  lemma GrownSize(es: seq<Element>, path: seq<nat>, added: seq<Element>)
    requires ValidPath(es, path)
    ensures |EncodeDoc(Grown(es, path, added))| == |EncodeDoc(es)| + |EncodeList(added)|
  {
    hide EncodeList, EncodeDoc, FramesOf, WrapSize;
    var inner := Inner(es, path);
    UpdateKeepsFrames(es, path, inner + added);
    EncodedSize(es, path);
    EncodedSize(Grown(es, path, added), path);
    EncodeListAppend(inner, added);
    SizesShift(FramesOf(es, path), |EncodeList(inner + added)|, |EncodeList(inner)|);
  }

  /** Filling the last, still empty, subdocument of a document is appending it filled. */
  lemma GrowLast(es: seq<Element>, path: seq<nat>, key: seq<byte>, isArray: bool, added: seq<Element>)
    requires ValidPath(es, path)
    ensures var k := |Inner(es, path)|;
      var es' := WithSubdoc(es, path, k, key, isArray);
      && ValidPath(es', path + [k]) && Inner(es', path + [k]) == []
      && Grown(es', path + [k], added) == Grown(es, path, [Element(Chop(key), Sub(isArray, added))])
  {
    hide Chop;
    var inner := Inner(es, path);
    var k := |inner|;
    var es' := WithSubdoc(es, path, k, key, isArray);
    WithSubdocPath(es, path, k, key, isArray);
    var e := Element(Chop(key), Sub(isArray, []));
    var inner' := Replace(inner, k, k, [e]);
    UpdateKeepsFrames(es, path, inner');
    assert [] + added == added;
    UpdateLonger(es', path, k, added);
    UpdateTwice(es, path, inner', inner + [Element(Chop(key), Sub(isArray, added))]);
    assert inner'[k := e.(node := Sub(isArray, added))] == inner + [Element(Chop(key), Sub(isArray, added))];
  }

  lemma {:induction false} PrefixSizes(vs: seq<ValueRule>, i: nat)
    requires i <= |vs|
    ensures |EncodeList(ArrayElements(vs[..i]))| <= |EncodeList(ArrayElements(vs))|
    decreases |vs| - i
  {
    hide EncodeList, Appended;
    if i == |vs| {
      assert vs[..i] == vs;
    } else {
      PrefixSizes(vs, i + 1);
      assert vs[..i + 1][..i] == vs[..i];
      EncodeListAppend(ArrayElements(vs[..i]), Appended(vs[i], SlotKey(i)));
    }
  }

  lemma {:induction false} ElementPrefixSizes(rules: seq<ElementRule>, i: nat)
    requires i <= |rules|
    ensures |EncodeList(DocElements(rules[..i]))| <= |EncodeList(DocElements(rules))|
    decreases |rules| - i
  {
    hide EncodeList, ElementAppended;
    if i == |rules| {
      assert rules[..i] == rules;
    } else {
      ElementPrefixSizes(rules, i + 1);
      assert rules[..i + 1][..i] == rules[..i];
      EncodeListAppend(DocElements(rules[..i]), ElementAppended(rules[i]));
    }
  }

  lemma Capacities(chain: seq<Mut>, d: Doc, es: seq<Element>, path: seq<nat>)
    requires Tracks(chain, d, es, path)
    ensures |chain| == |path| + 1 && d.Valid() && d.Capacity() == d.buf.Length - COOKIE
  {
    hide FramesOf, Offsets, Wrap, EncodeList;
  }

  lemma EndStops(inner: seq<Element>, base: nat)
    ensures Stop(IterFor(inner, |inner|, base))
  {
    hide EncodeList;
    ElemOffsetsAscend(inner, 0, |inner|);
  }
  // ----- appending

  /** `mutator::end`. */
  method End(mut: Mut, ghost chain: seq<Mut>, ghost d: Doc, ghost es: seq<Element>, ghost path: seq<nat>)
    returns (r: Cursor)
    requires Tracks(chain, d, es, path) && mut == chain[|path|]
    ensures r == CursorAt(d.buf, es, path, |Inner(es, path)|) && Stop(r.it)
  {
    hide InSync, EncodeList, FramesOf, Inner, Base, IterFor;
    EndStops(Inner(es, path), Base(es, path));
    r := EndOf(mut, chain, d, FramesOf(es, path), EncodeList(Inner(es, path)));
    EndCursorIsAtEnd(d.buf, es, path);
  }

  /**
   `mutator::emplace_back`. A value that was not inserted makes it throw, as an
   end-of-document value always does; nothing has changed then. Through a null mutator,
   and for code with scope, an assertion stops the process.
   */
  method EmplaceBack(
      mut: Mut?, key: seq<byte>, v: ValueRef,
      ghost chain: seq<Mut>, ghost d: Doc, ghost es: seq<Element>, ghost path: seq<nat>)
    returns (outcome: Outcome)
    requires Tracks(chain, d, es, path) && (mut == null || mut == chain[|path|])
    requires (v.CodeWithScope? || Insertable(v)) && |key| <= Int.INT64_MAX
    modifies chain, d`buf, d.buf
    ensures d.buf == old(d.buf) || fresh(d.buf)
    ensures outcome == Halted <==> mut == null || v.CodeWithScope?
    ensures outcome == Built ==> !v.Eod? && Tracks(chain, d, Grown(es, path, [NewElement(key, v)]), path)
    ensures outcome != Built ==> Tracks(chain, d, es, path) && d.buf == old(d.buf) && d.buf[..] == old(d.buf[..])
    ensures var room := |EncodeDoc(es)| + |EncodeList([NewElement(key, v)])| <= old(d.Capacity());
      mut != null && !v.CodeWithScope? && !v.Eod? && room ==> outcome == Built && d.buf == old(d.buf)
  {
    hide InSync, EncodeList, EncodeDoc, EncodeElement, FramesOf, Inner, Base, Update, InRanges, NewElement, ValidPath;
    hide ChildOffsets;
    if mut == null || v.CodeWithScope? {
      return Halted;
    }
    ghost var k := |Inner(es, path)|;
    var end := End(mut, chain, d, es, path);
    var r, effect := InsertValue(mut, end, key, v, chain, d, es, path, k);
    outcome := if Stop(r.it) then Threw else Built;
    EncodeListSingle(NewElement(key, v));
    assert Replace(Inner(es, path), k, k, [NewElement(key, v)]) == Inner(es, path) + [NewElement(key, v)];
  }

  /**
   `mutator::push_subdoc` and `mutator::push_array`: a child at a new, empty, last
   element; or a null child, which nobody is told of, when the insertion was refused.
   */
  method PushSubdoc(
      mut: Mut, key: seq<byte>, isArray: bool,
      ghost chain: seq<Mut>, ghost d: Doc, ghost es: seq<Element>, ghost path: seq<nat>)
    returns (child: Mut?)
    requires Tracks(chain, d, es, path) && mut == chain[|path|] && |key| <= Int.INT64_MAX
    modifies chain, d`buf, d.buf
    ensures d.buf == old(d.buf) || fresh(d.buf)
    ensures child == null ==> Tracks(chain, d, es, path) && d.buf == old(d.buf) && d.buf[..] == old(d.buf[..])
    ensures child != null ==>
      var k := |Inner(es, path)|;
      var es' := WithSubdoc(es, path, k, key, isArray);
      && fresh(child)
      && ValidPath(es', path + [k]) && Tracks(chain + [child], d, es', path + [k])
      && Inner(es', path + [k]) == []
      && |EncodeDoc(es')| == |EncodeDoc(es)| + |Chop(key)| + 7
    ensures |EncodeDoc(es)| + |Chop(key)| + 7 <= old(d.Capacity()) ==> child != null && d.buf == old(d.buf)
  {
    hide InSync, EncodeList, EncodeDoc, FramesOf, Base, Update, ChildOffsets, Chop, IterFor;
    ghost var k := |Inner(es, path)|;
    var end := End(mut, chain, d, es, path);
    var r;
    r, child := InsertSubdoc(mut, end, key, isArray, chain, d, es, path, k);
    SubdocSize(es, path, key, isArray);
    WithSubdocPath(es, path, k, key, isArray);
  }

  lemma SubdocSize(es: seq<Element>, path: seq<nat>, key: seq<byte>, isArray: bool)
    requires ValidPath(es, path)
    ensures |EncodeDoc(WithSubdoc(es, path, |Inner(es, path)|, key, isArray))| == |EncodeDoc(es)| + |Chop(key)| + 7
  {
    hide EncodeList, EncodeDoc, Chop, Update;
    var inner := Inner(es, path);
    var e := Element(Chop(key), Sub(isArray, []));
    assert Replace(inner, |inner|, |inner|, [e]) == inner + [e];
    GrownSize(es, path, [e]);
    EncodeNothing();
    SubSize(Chop(key), isArray, []);
  }

  /** Once the child's document is filled, the chain without it tracks the filled tree. */
  lemma Filled(
      chain: seq<Mut>, child: Mut, d: Doc, es: seq<Element>, path: seq<nat>,
      key: seq<byte>, isArray: bool, added: seq<Element>)
    requires ValidPath(es, path) && |chain| == |path| + 1
    requires var k := |Inner(es, path)|;
      var es' := WithSubdoc(es, path, k, key, isArray);
      && ValidPath(es', path + [k])
      && Tracks(chain + [child], d, Grown(es', path + [k], added), path + [k])
    ensures Tracks(chain, d, Grown(es, path, [Element(Chop(key), Sub(isArray, added))]), path)
  {
    hide InSync, EncodeList, FramesOf, Chop, Update, ChildOffsets;
    var k := |Inner(es, path)|;
    var e := Element(Chop(key), Sub(isArray, added));
    GrowLast(es, path, key, isArray, added);
    GrowTwice(es, path, [e], []);
    assert (Inner(es, path) + [e])[k] == e;
    TracksParent(chain + [child], d, Grown(es, path, [e]), path, k);
    assert (chain + [child])[..|path| + 1] == chain;
  }

  /** `append_value` and the `append_to` of value rules. */
  method AppendValue(
      mut: Mut?, key: seq<byte>, r: ValueRule,
      ghost chain: seq<Mut>, ghost d: Doc, ghost es: seq<Element>, ghost path: seq<nat>)
    returns (outcome: Outcome, ghost added: seq<Element>, ghost refused: nat)
    requires Tracks(chain, d, es, path) && (mut == null || mut == chain[|path|])
    requires InRange(r) && |key| <= Int.INT64_MAX
    modifies chain, d`buf, d.buf
    ensures d.buf == old(d.buf) || fresh(d.buf)
    ensures Tracks(chain, d, Grown(es, path, added), path)
    ensures mut == null ==> added == [] && outcome == if Appended(r, key) == [] then Built else Halted
    ensures mut != null && outcome == Built ==> Storable(r) && Partial(added, r, key, refused)
    ensures mut != null && (Absent(r) || Hollow(r)) ==> outcome == Built
    ensures var room := |EncodeDoc(es)| + |EncodeList(Appended(r, key))| <= old(d.Capacity());
      mut != null && Storable(r) && room ==>
      outcome == Built && refused == 0 && d.buf == old(d.buf)
    decreases r, 2
  {
    hide InSync, EncodeList, EncodeDoc, FramesOf, Base, Update, ChildOffsets, Chop, Inner, ValidPath, NewElement;
    hide Grown;
    added, refused := [], 0;
    GrowNothing(es, path);
    match r {
      case Value(v) =>
        outcome := EmplaceBack(mut, key, v, chain, d, es, path);
        added := if outcome == Built then [NewElement(key, v)] else [];
      case OptionalValue(opt) =>
        outcome := Built;
        if opt.Some? {
          outcome, added, refused := AppendValue(mut, key, opt.value, chain, d, es, path);
        }
      case _ =>
        if mut == null {
          // Asking a null mutator for its end stops the process.
          return Halted, [], 0;
        }
        outcome, added, refused := AppendNested(mut, key, r, chain, d, es, path);
    }
  }

  /** `array::append_to`, `range::append_to` and `doc::append_to`. */
  method AppendNested(
      mut: Mut, key: seq<byte>, r: ValueRule,
      ghost chain: seq<Mut>, ghost d: Doc, ghost es: seq<Element>, ghost path: seq<nat>)
    returns (outcome: Outcome, ghost added: seq<Element>, ghost refused: nat)
    requires Tracks(chain, d, es, path) && mut == chain[|path|]
    requires (r.Array? || r.Doc?) && InRange(r) && |key| <= Int.INT64_MAX
    modifies chain, d`buf, d.buf
    ensures d.buf == old(d.buf) || fresh(d.buf)
    ensures Tracks(chain, d, Grown(es, path, added), path)
    ensures outcome == Built ==> Storable(r) && Partial(added, r, key, refused)
    ensures Hollow(r) ==> outcome == Built
    ensures var room := |EncodeDoc(es)| + |EncodeList(Appended(r, key))| <= old(d.Capacity());
      Storable(r) && room ==>
      outcome == Built && refused == 0 && d.buf == old(d.buf)
    decreases r, 1
  {
    hide InSync, EncodeList, EncodeDoc, FramesOf, Base, Update, ChildOffsets, Chop, Inner, ValidPath, WithSubdoc, Grown;
    hide PartialArray, PartialDoc, ElementStorable;
    added, refused := [], 0;
    GrowNothing(es, path);
    Capacities(chain, d, es, path);
    NestedRule(r, key);
    var child := PushSubdoc(mut, key, r.Array?, chain, d, es, path);
    ghost var inner, chain', es', path' := [], chain, es, path;
    if child != null {
      es', path' := WithSubdoc(es, path, |Inner(es, path)|, key, r.Array?), path + [|Inner(es, path)|];
      chain' := chain + [child];
      Capacities(chain', d, es', path');
    }
    if r.Array? {
      outcome, inner, refused := AppendArray(child, r.vs, chain', d, es', path');
    } else {
      outcome, inner, refused := AppendElements(child, r.es, chain', d, es', path');
    }
    if child != null {
      added := [Element(Chop(key), Sub(r.Array?, inner))];
      Filled(chain, child, d, es, path, key, r.Array?, inner);
    } else {
      refused := 1;
    }
  }

  /** What is nested in an array or document rule. */
  function NestedElements(r: ValueRule): seq<Element>
    requires r.Array? || r.Doc?
  {
    if r.Array? then ArrayElements(r.vs) else DocElements(r.es)
  }

  lemma NestedRule(r: ValueRule, key: seq<byte>)
    requires r.Array? || r.Doc?
    ensures |EncodeList(Appended(r, key))| == |Chop(key)| + 7 + |EncodeList(NestedElements(r))|
    ensures NestedElements(r) == [] ==> Storable(r)
    ensures r.Doc? && DocElements(r.es) == [] ==> forall i :: 0 <= i < |r.es| ==> ElementAppended(r.es[i]) == []
  {
    hide Chop, EncodeList;
    SubSize(Chop(key), r.Array?, NestedElements(r));
    if r.Array? {
      ArrayOfAbsent(r.vs);
    } else {
      DocOfNothing(r.es);
    }
  }

  /** One more slot of an array, and its share of the room. */
  lemma SlotRoom(es: seq<Element>, path: seq<nat>, vs: seq<ValueRule>, n: nat)
    requires ValidPath(es, path) && n < |vs|
    ensures var cur := Grown(es, path, ArrayElements(vs[..n]));
      var added := Appended(vs[n], SlotKey(n));
      && ValidPath(cur, path)
      && Grown(cur, path, added) == Grown(es, path, ArrayElements(vs[..n + 1]))
      && |EncodeDoc(cur)| + |EncodeList(added)| <= |EncodeDoc(es)| + |EncodeList(ArrayElements(vs))|
  {
    hide EncodeList, EncodeDoc, Update, Inner, Appended, SlotKey, Grown;
    assert vs[..n + 1][..n] == vs[..n];
    var a, b := ArrayElements(vs[..n]), Appended(vs[n], SlotKey(n));
    GrowTwice(es, path, a, b);
    GrownSize(es, path, a);
    EncodeListAppend(a, b);
    PrefixSizes(vs, n + 1);
  }

  lemma ElementRoom(es: seq<Element>, path: seq<nat>, rules: seq<ElementRule>, n: nat)
    requires ValidPath(es, path) && n < |rules|
    ensures var cur := Grown(es, path, DocElements(rules[..n]));
      var added := ElementAppended(rules[n]);
      && ValidPath(cur, path)
      && Grown(cur, path, added) == Grown(es, path, DocElements(rules[..n + 1]))
      && |EncodeDoc(cur)| + |EncodeList(added)| <= |EncodeDoc(es)| + |EncodeList(DocElements(rules))|
  {
    hide EncodeList, EncodeDoc, Update, Inner, ElementAppended, Grown;
    assert rules[..n + 1][..n] == rules[..n];
    var a, b := DocElements(rules[..n]), ElementAppended(rules[n]);
    GrowTwice(es, path, a, b);
    GrownSize(es, path, a);
    EncodeListAppend(a, b);
    ElementPrefixSizes(rules, n + 1);
  }

  /** The values of an array, under the numbers of their slots. */
  method AppendArray(
      mut: Mut?, vs: seq<ValueRule>,
      ghost chain: seq<Mut>, ghost d: Doc, ghost es: seq<Element>, ghost path: seq<nat>)
    returns (outcome: Outcome, ghost added: seq<Element>, ghost refused: nat)
    requires Tracks(chain, d, es, path) && (mut == null || mut == chain[|path|])
    requires forall i :: 0 <= i < |vs| ==> InRange(vs[i])
    modifies chain, d`buf, d.buf
    ensures d.buf == old(d.buf) || fresh(d.buf)
    ensures Tracks(chain, d, Grown(es, path, added), path)
    ensures mut == null ==> added == [] && outcome == if ArrayElements(vs) == [] then Built else Halted
    ensures mut != null && outcome == Built ==>
      (forall i :: 0 <= i < |vs| ==> Storable(vs[i])) && PartialArray(added, vs, refused)
    ensures mut != null && ArrayElements(vs) == [] ==> outcome == Built
    ensures var room := |EncodeDoc(es)| + |EncodeList(ArrayElements(vs))| <= old(d.Capacity());
      mut != null && (forall i :: 0 <= i < |vs| ==> Storable(vs[i])) && room ==>
      outcome == Built && refused == 0 && d.buf == old(d.buf)
    decreases vs, 0
  {
    hide InSync, EncodeList, EncodeDoc, FramesOf, Base, Update, ChildOffsets, Inner, ValidPath, Grown, Storable;
    hide InRange;
    hide Appended, Spell, Partial, Absent, SlotKey, PartialArray, ArrayElements;
    PartialNone(vs, []);
    Capacities(chain, d, es, path);
    GrowNothing(es, path);
    ArrayOfAbsent(vs);
    added, refused := [], 0;
    ghost var cur := es;
    ghost var roomy := mut != null && (forall i :: 0 <= i < |vs| ==> Storable(vs[i]))
      && |EncodeDoc(es)| + |EncodeList(ArrayElements(vs))| <= d.Capacity();
    var nth := 0;
    while nth < |vs|
      invariant nth <= |vs|
      invariant d.buf == old(d.buf) || fresh(d.buf)
      invariant ValidPath(es, path) && cur == Grown(es, path, added) && Tracks(chain, d, cur, path)
      invariant mut == null ==> added == [] && forall i :: 0 <= i < nth ==> Absent(vs[i])
      invariant mut != null ==> PartialArray(added, vs[..nth], refused) && forall i :: 0 <= i < nth ==> Storable(vs[i])
      invariant roomy ==> d.buf == old(d.buf) && refused == 0
    {
      Capacities(chain, d, cur, path);
      if roomy {
        PartialArrayCount(added, vs[..nth], refused);
      }
      SlotRoom(es, path, vs, nth);
      var key := U32String(nth % 0x1_0000_0000);
      Uint32Length(nth % 0x1_0000_0000);
      SlotKeyIs(nth);
      AbsentIsNothing(vs[nth], key);
      ghost var more, missing;
      outcome, more, missing := AppendValue(mut, key, vs[nth], chain, d, cur, path);
      GrowTwice(es, path, added, more);
      cur := Grown(es, path, added + more);
      if outcome != Built {
        added := added + more;
        return;
      }
      if mut != null {
        PartialArrayMore(added, vs, nth, refused, more, missing);
        refused := refused + missing;
      }
      added := added + more;
      nth := nth + 1;
    }
    assert vs[..|vs|] == vs;
    outcome := Built;
  }

  lemma SlotKeyIs(n: nat)
    ensures SlotKey(n) == Spell(n % 0x1_0000_0000)
  {
  }

  /** The elements of a document, in order. */
  method AppendElements(
      mut: Mut?, rules: seq<ElementRule>,
      ghost chain: seq<Mut>, ghost d: Doc, ghost es: seq<Element>, ghost path: seq<nat>)
    returns (outcome: Outcome, ghost added: seq<Element>, ghost refused: nat)
    requires Tracks(chain, d, es, path) && (mut == null || mut == chain[|path|])
    requires forall i :: 0 <= i < |rules| ==> ElementInRange(rules[i])
    modifies chain, d`buf, d.buf
    ensures d.buf == old(d.buf) || fresh(d.buf)
    ensures Tracks(chain, d, Grown(es, path, added), path)
    ensures mut == null ==> added == [] && outcome == if DocElements(rules) == [] then Built else Halted
    ensures mut != null && outcome == Built ==>
      (forall i :: 0 <= i < |rules| ==> ElementStorable(rules[i])) && PartialDoc(added, rules, refused)
    ensures mut != null
      && (forall i :: 0 <= i < |rules| ==> ElementAppended(rules[i]) == [] || ElementHollow(rules[i]))
      ==> outcome == Built
    ensures var room := |EncodeDoc(es)| + |EncodeList(DocElements(rules))| <= old(d.Capacity());
      mut != null && (forall i :: 0 <= i < |rules| ==> ElementStorable(rules[i])) && room ==>
      outcome == Built && refused == 0 && d.buf == old(d.buf)
    decreases rules, 0
  {
    hide InSync, EncodeList, EncodeDoc, FramesOf, Base, Update, ChildOffsets, Inner, ValidPath, Grown, ElementStorable;
    hide ElementInRange, ElementAppended, PartialElement, ElementHollow, PartialDoc, DocElements;
    PartialNone([], rules);
    Capacities(chain, d, es, path);
    GrowNothing(es, path);
    DocOfNothing(rules);
    added, refused := [], 0;
    ghost var cur := es;
    ghost var roomy := mut != null && (forall i :: 0 <= i < |rules| ==> ElementStorable(rules[i]))
      && |EncodeDoc(es)| + |EncodeList(DocElements(rules))| <= d.Capacity();
    var n := 0;
    while n < |rules|
      invariant n <= |rules|
      invariant d.buf == old(d.buf) || fresh(d.buf)
      invariant ValidPath(es, path) && cur == Grown(es, path, added) && Tracks(chain, d, cur, path)
      invariant mut == null ==> added == [] && forall i :: 0 <= i < n ==> ElementAppended(rules[i]) == []
      invariant mut != null ==> PartialDoc(added, rules[..n], refused)
      invariant mut != null ==> forall i :: 0 <= i < n ==> ElementStorable(rules[i])
      invariant roomy ==> d.buf == old(d.buf) && refused == 0
    {
      Capacities(chain, d, cur, path);
      if roomy {
        PartialDocCount(added, rules[..n], refused);
      }
      ElementRoom(es, path, rules, n);
      ghost var more, missing;
      outcome, more, missing := AppendElement(mut, rules[n], chain, d, cur, path);
      GrowTwice(es, path, added, more);
      cur := Grown(es, path, added + more);
      if outcome != Built {
        added := added + more;
        return;
      }
      if mut != null {
        PartialDocMore(added, rules, n, refused, more, missing);
        refused := refused + missing;
      }
      added := added + more;
      n := n + 1;
    }
    assert rules[..|rules|] == rules;
    outcome := Built;
  }

  /** The `append_to` of element rules. */
  method AppendElement(
      mut: Mut?, e: ElementRule,
      ghost chain: seq<Mut>, ghost d: Doc, ghost es: seq<Element>, ghost path: seq<nat>)
    returns (outcome: Outcome, ghost added: seq<Element>, ghost refused: nat)
    requires Tracks(chain, d, es, path) && (mut == null || mut == chain[|path|])
    requires ElementInRange(e)
    modifies chain, d`buf, d.buf
    ensures d.buf == old(d.buf) || fresh(d.buf)
    ensures Tracks(chain, d, Grown(es, path, added), path)
    ensures mut == null ==> added == [] && outcome == if ElementAppended(e) == [] then Built else Halted
    ensures mut != null && outcome == Built ==> ElementStorable(e) && PartialElement(added, e, refused)
    ensures mut != null && (ElementAppended(e) == [] || ElementHollow(e)) ==> outcome == Built
    ensures var room := |EncodeDoc(es)| + |EncodeList(ElementAppended(e))| <= old(d.Capacity());
      mut != null && ElementStorable(e) && room ==>
      outcome == Built && refused == 0 && d.buf == old(d.buf)
    decreases e, 1
  {
    hide InSync, EncodeList, EncodeDoc, FramesOf, Base, Update, ChildOffsets, Inner, ValidPath, Grown, Storable;
    hide InRange;
    hide Appended, Partial, Hollow;
    GrowNothing(es, path);
    outcome, added, refused := Built, [], 0;
    match e {
      case Pair(key, value) =>
        AbsentIsNothing(value, key);
        outcome, added, refused := AppendValue(mut, key, value, chain, d, es, path);
      case OptionalPair(key, opt) =>
        if opt.Some? {
          AbsentIsNothing(opt.value, key);
          outcome, added, refused := AppendValue(mut, key, opt.value, chain, d, es, path);
        }
      case Conditional(rule) =>
        if rule.Some? {
          outcome, added, refused := AppendElement(mut, rule.value, chain, d, es, path);
        }
    }
  }

  // ----- building

  /**
   `doc::build`. Whatever the allocator refuses, the document stays a well-formed encoding
   of a tree. When the build ends normally that is the tree of the rules but for the
   refused empty documents and arrays, and it is all of it, with the size that the size
   law gives, exactly when none was refused. A reservation that covers the built size is
   all the memory it needs.
   */
  method Build(rules: seq<ElementRule>, empty: array<byte>)
    returns (d: Doc, outcome: Outcome, ghost reserved: bool, ghost built: seq<Element>, ghost refused: nat)
    requires empty[..] == EMPTY_IMAGE
    requires forall i :: 0 <= i < |rules| ==> ElementInRange(rules[i])
    modifies empty
    ensures d.Valid() && d.empty == empty && empty[..] == EMPTY_IMAGE
    ensures d.Contents() == EncodeDoc(built) && Holds(d.buf[..], COOKIE, built) && |EncodeDoc(built)| <= INT32_MAX
    ensures outcome == Built ==>
      && (forall i :: 0 <= i < |rules| ==> ElementStorable(rules[i]))
      && PartialDoc(built, rules, refused)
      && (built == DocElements(rules) <==> refused == 0)
      && (refused == 0 ==> |d.Contents()| == DocSize(rules) + 5 + DocUnder(rules) - DocOver(rules))
    ensures (forall i :: 0 <= i < |rules| ==> ElementHollow(rules[i])) ==> outcome == Built
    ensures var enough := |EncodeDoc(DocElements(rules))| <= DocSize(rules) < 0x1_0000_0000;
      reserved && enough && (forall i :: 0 <= i < |rules| ==> ElementStorable(rules[i])) ==>
      outcome == Built && refused == 0
  {
    hide InSync, EncodeList, EncodeDoc, DocElements, ElementInRange, ElementStorable, ElementHollow, PartialDoc;
    hide ElementAppended, Tracks, ReadU32le, DocSize, DocUnder, DocOver;
    d, reserved := NewDocument(empty, DocSize(rules) % 0x1_0000_0000);
    var mut := new Mut.Root(d);
    RootTracks(mut, d);
    EmptyEncoding();
    outcome, built, refused := AppendElements(mut, rules, [mut], d, [], []);
    assert Grown([], [], built) == built by {
      assert [] + built == built;
    }
    RootHolds(mut, d, built);
    if outcome == Built {
      PartialDocCount(built, rules, refused);
      BuilderSizeLaw(rules);
    }
  }

  /** A document with one empty document in it. */
  function OneEmpty(): seq<ElementRule> {
    [Pair(['a' as int], Doc([]))]
  }

  /**
   Building it always ends normally; the announced size of 3 reserves nothing, and the
   result is the empty document, instead of one of 13 bytes, exactly when the allocator
   refused the one allocation.
   */
  method BuildOneEmpty(empty: array<byte>) returns (d: Doc, outcome: Outcome, ghost refused: nat)
    requires empty[..] == EMPTY_IMAGE
    modifies empty
    ensures DocSize(OneEmpty()) == 3 && |EncodeDoc(DocElements(OneEmpty()))| == 13
    ensures d.Valid() && outcome == Built && refused <= 1
    ensures d.Contents() == if refused == 1 then [5, 0, 0, 0, 0] else EncodeDoc(DocElements(OneEmpty()))
  {
    OneEmptyFacts();
    ghost var reserved, built;
    d, outcome, reserved, built, refused := Build(OneEmpty(), empty);
    if refused != 0 {
      OneEmptyLoss(built, refused);
    }
  }

  lemma OneEmptyFacts()
    ensures ElementInRange(OneEmpty()[0]) && ElementHollow(OneEmpty()[0])
    ensures DocSize(OneEmpty()) == 3
    ensures DocElements(OneEmpty()) == [Element(['a' as int], Sub(false, []))]
    ensures |EncodeDoc(DocElements(OneEmpty()))| == 13
    ensures EncodeDoc([]) == [5, 0, 0, 0, 0]
  {
    var rules := OneEmpty();
    assert rules[..0] == [];
    assert DocSize([]) == 0 && DocElements([]) == [];
    ChopKeeps(['a' as int]);
    SubSize(['a' as int], false, []);
    assert EncodeList([]) == [];
  }

  lemma OneEmptyLoss(built: seq<Element>, refused: nat)
    requires PartialDoc(built, OneEmpty(), refused) && refused > 0
    ensures built == [] && refused == 1
  {
    OneEmptyFacts();
    PartialDocCount(built, OneEmpty(), refused);
    CountSingle(Element(['a' as int], Sub(false, [])));
    assert Count([]) == 0;
    assert built != [] ==> Count(built) > 0;
  }

  lemma EmptyEncoding()
    ensures |EncodeDoc([])| == 5 && EncodeList([]) == []
  {
  }

  lemma RootHolds(mut: Mut, d: Doc, es: seq<Element>)
    requires Tracks([mut], d, es, [])
    ensures d.Valid() && d.Contents() == EncodeDoc(es) && |EncodeDoc(es)| <= INT32_MAX
    ensures Holds(d.buf[..], COOKIE, es)
  {
    hide EncodeList, EncodeDoc, Wrap, FramesOf;
    Capacities([mut], d, es, []);
    TracksContents([mut], d, es, []);
  }

  lemma RootTracks(mut: Mut, d: Doc)
    requires d.Valid() && d.Contents() == [5, 0, 0, 0, 0]
    requires mut.doc == d && mut.parent == null && mut.offset == 0 && mut.data == Ptr(d.buf, COOKIE)
    ensures Tracks([mut], d, [], [])
  {
    assert Wrap([], EncodeList([])) == [5, 0, 0, 0, 0];
  }

  // ----- what is built can be read

  /**
   Whatever was refused, a normally built document of values other than regular
   expressions and dbpointers can be walked at every depth, and each walk visits exactly
   the elements there.
   */
  lemma BuiltWalks(
      mem: seq<byte>, base: nat, built: seq<Element>, rules: seq<ElementRule>, refused: nat, path: seq<nat>)
    requires PartialDoc(built, rules, refused) && forall i :: 0 <= i < |rules| ==> ElementClean(rules[i])
    requires Holds(mem, base, built) && |EncodeDoc(built)| <= INT32_MAX && ValidPath(built, path)
    ensures ReadableDoc(Inner(built, path))
    ensures VisitsExactly(mem, NestedBase(base, built, path), Inner(built, path), 0)
  {
    PartialDocClean(built, rules, refused);
    CleanIsReadable(built, path);
    CleanWalks(mem, base, built, path);
  }

  /** So it stays after any further insertion of such values, anywhere. */
  lemma InsertedStaysClean(es: seq<Element>, path: seq<nat>, k: nat, key: seq<byte>, v: ValueRef)
    requires Clean(es) && ValidPath(es, path) && k <= |Inner(es, path)| && CleanValue(v)
    ensures Clean(Inserted(es, path, k, key, v))
  {
    CleanSingle(key, v);
    CleanReplace(es, path, k, k, [NewElement(key, v)]);
  }
}
