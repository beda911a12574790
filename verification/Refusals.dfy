/**
 Building when the allocator refuses (`push_subdoc` and `push_array` in
 `include/bson/mut.h`, `append_to` in `include/bson/make.hpp`). A refused value makes
 `emplace_back` throw. A refused subdocument goes unreported: the builder goes on with a
 null mutator, which stops the process at the first element, and without any element the
 document is just not there.
 */
module Refusals {
  import opened Bytes
  import opened Document
  import opened Reading
  import opened Values
  import opened Tracking
  import opened Insertion
  import opened Make

  /** A build ends normally, with an exception, or with a tripped assertion. */
  datatype Outcome = Built | Threw | Halted

  /**
   `added` is what the rule appends, but for `refused` empty documents and arrays whose
   insertion was refused: `push_subdoc` and `push_array` do not report that, and what
   has no elements does not notice.
   */
  ghost predicate Partial(added: seq<Element>, r: ValueRule, key: seq<byte>, refused: nat)
    decreases r, 1
  {
    match r
    case Value(v) => added == [NewElement(key, v)] && refused == 0
    case Array(vs) =>
      || (added == [] && refused == 1 && ArrayElements(vs) == [])
      || (exists inner: seq<Element> ::
            PartialArray(inner, vs, refused) && added == [Element(Chop(key), Sub(true, inner))])
    case Doc(rules) =>
      || (added == [] && refused == 1 && DocElements(rules) == [])
      || (exists inner: seq<Element> ::
            PartialDoc(inner, rules, refused) && added == [Element(Chop(key), Sub(false, inner))])
    case OptionalValue(opt) =>
      if opt.Some? then Partial(added, opt.value, key, refused) else added == [] && refused == 0
  }

  ghost predicate PartialArray(added: seq<Element>, vs: seq<ValueRule>, refused: nat)
    decreases vs, 0
  {
    if vs == [] then added == [] && refused == 0
    else
      var n := |vs| - 1;
      exists a: seq<Element>, b: seq<Element>, i: nat, j: nat ::
        PartialArray(a, vs[..n], i) && Partial(b, vs[n], SlotKey(n), j) && added == a + b && refused == i + j
  }

  ghost predicate PartialElement(added: seq<Element>, e: ElementRule, refused: nat)
    decreases e, 1
  {
    match e
    case Pair(key, value) => Partial(added, value, key, refused)
    case OptionalPair(key, opt) =>
      if opt.Some? then Partial(added, opt.value, key, refused) else added == [] && refused == 0
    case Conditional(rule) =>
      if rule.Some? then PartialElement(added, rule.value, refused) else added == [] && refused == 0
  }

  ghost predicate PartialDoc(added: seq<Element>, rules: seq<ElementRule>, refused: nat)
    decreases rules, 0
  {
    if rules == [] then added == [] && refused == 0
    else
      var n := |rules| - 1;
      exists a: seq<Element>, b: seq<Element>, i: nat, j: nat ::
        PartialDoc(a, rules[..n], i) && PartialElement(b, rules[n], j) && added == a + b && refused == i + j
  }

  // ----- what is missing

  /** The number of elements at all depths. */
  function Count(es: seq<Element>): nat
    decreases es, 0
  {
    if es == [] then 0
    else
      var n := |es| - 1;
      Count(es[..n]) + CountElement(es[n])
  }

  function CountElement(e: Element): nat
    decreases e, 1
  {
    match e.node
    case Leaf(_, _) => 1
    case Sub(_, es) => 1 + Count(es)
  }

  lemma {:induction false} CountAppend(a: seq<Element>, b: seq<Element>)
    ensures Count(a + b) == Count(a) + Count(b)
    decreases |b|
  {
    if b == [] {
      assert a + b == a;
    } else {
      var n := |b| - 1;
      CountAppend(a, b[..n]);
      assert (a + b)[..|a| + n] == a + b[..n];
    }
  }

  lemma CountSingle(e: Element)
    ensures Count([e]) == CountElement(e)
  {
    assert [e][..0] == [];
    assert Count([]) == 0;
  }

  /** Every refusal costs exactly one element; without any, nothing is missing. */
  lemma {:induction false} PartialCount(added: seq<Element>, r: ValueRule, key: seq<byte>, refused: nat)
    requires Partial(added, r, key, refused)
    ensures Count(added) + refused == Count(Appended(r, key))
    ensures refused == 0 ==> added == Appended(r, key)
    decreases r, 1
  {
    hide Chop, NewElement, CountElement;
    match r
    case Value(_) =>
    case Array(vs) => PartialSub(added, r, key, refused);
    case Doc(rules) => PartialSub(added, r, key, refused);
    case OptionalValue(opt) =>
      if opt.Some? {
        PartialCount(added, opt.value, key, refused);
      } else {
        assert Count([]) == 0;
      }
  }

  lemma {:induction false} PartialSub(added: seq<Element>, r: ValueRule, key: seq<byte>, refused: nat)
    requires Partial(added, r, key, refused) && (r.Array? || r.Doc?)
    ensures Count(added) + refused == Count(Appended(r, key))
    ensures refused == 0 ==> added == Appended(r, key)
    decreases r, 0
  {
    hide Chop;
    var all := if r.Array? then ArrayElements(r.vs) else DocElements(r.es);
    CountSingle(Element(Chop(key), Sub(r.Array?, all)));
    assert Count([]) == 0;
    if added != [] {
      CountSingle(added[0]);
      if r.Array? {
        var inner :| PartialArray(inner, r.vs, refused) && added == [Element(Chop(key), Sub(true, inner))];
        PartialArrayCount(inner, r.vs, refused);
      } else {
        var inner :| PartialDoc(inner, r.es, refused) && added == [Element(Chop(key), Sub(false, inner))];
        PartialDocCount(inner, r.es, refused);
      }
    }
  }

  lemma {:induction false} PartialArrayCount(added: seq<Element>, vs: seq<ValueRule>, refused: nat)
    requires PartialArray(added, vs, refused)
    ensures Count(added) + refused == Count(ArrayElements(vs))
    ensures refused == 0 ==> added == ArrayElements(vs)
    decreases vs, 0
  {
    hide Count, Partial, Appended, SlotKey;
    if vs != [] {
      var n := |vs| - 1;
      var a, b, i: nat, j: nat :| PartialArray(a, vs[..n], i) && Partial(b, vs[n], SlotKey(n), j)
        && added == a + b && refused == i + j;
      PartialArrayCount(a, vs[..n], i);
      PartialCount(b, vs[n], SlotKey(n), j);
      CountAppend(a, b);
      CountAppend(ArrayElements(vs[..n]), Appended(vs[n], SlotKey(n)));
    }
  }

  lemma {:induction false} PartialElementCount(added: seq<Element>, e: ElementRule, refused: nat)
    requires PartialElement(added, e, refused)
    ensures Count(added) + refused == Count(ElementAppended(e))
    ensures refused == 0 ==> added == ElementAppended(e)
    decreases e, 1
  {
    hide Partial, Appended;
    assert Count([]) == 0;
    match e
    case Pair(key, value) => PartialCount(added, value, key, refused);
    case OptionalPair(key, opt) =>
      if opt.Some? {
        PartialCount(added, opt.value, key, refused);
      }
    case Conditional(rule) =>
      if rule.Some? {
        PartialElementCount(added, rule.value, refused);
      }
  }

  /** For whole documents: the tree that was built is the tree of the rules exactly when nothing was refused. */
  lemma {:induction false} PartialDocCount(added: seq<Element>, rules: seq<ElementRule>, refused: nat)
    requires PartialDoc(added, rules, refused)
    ensures Count(added) + refused == Count(DocElements(rules))
    ensures added == DocElements(rules) <==> refused == 0
    decreases rules, 0
  {
    hide Count, PartialElement, ElementAppended;
    if rules != [] {
      var n := |rules| - 1;
      var a, b, i: nat, j: nat :| PartialDoc(a, rules[..n], i) && PartialElement(b, rules[n], j)
        && added == a + b && refused == i + j;
      PartialDocCount(a, rules[..n], i);
      PartialElementCount(b, rules[n], j);
      CountAppend(a, b);
      CountAppend(DocElements(rules[..n]), ElementAppended(rules[n]));
    }
  }

  // ----- building it up

  lemma PartialNone(vs: seq<ValueRule>, rules: seq<ElementRule>)
    ensures PartialArray([], vs[..0], 0) && PartialDoc([], rules[..0], 0)
  {
    assert vs[..0] == [] && rules[..0] == [];
  }

  /** One more value of an array, or element of a document. */
  lemma PartialArrayMore(a: seq<Element>, vs: seq<ValueRule>, n: nat, i: nat, b: seq<Element>, j: nat)
    requires n < |vs| && PartialArray(a, vs[..n], i) && Partial(b, vs[n], SlotKey(n), j)
    ensures PartialArray(a + b, vs[..n + 1], i + j)
  {
    hide Partial, SlotKey;
    assert vs[..n + 1][..n] == vs[..n] && vs[..n + 1][n] == vs[n];
  }

  lemma PartialDocMore(a: seq<Element>, rules: seq<ElementRule>, n: nat, i: nat, b: seq<Element>, j: nat)
    requires n < |rules| && PartialDoc(a, rules[..n], i) && PartialElement(b, rules[n], j)
    ensures PartialDoc(a + b, rules[..n + 1], i + j)
  {
    hide PartialElement;
    assert rules[..n + 1][..n] == rules[..n] && rules[..n + 1][n] == rules[n];
  }

  // ----- rules that append nothing

  lemma {:induction false} AbsentIsNothing(r: ValueRule, key: seq<byte>)
    ensures Appended(r, key) == [] <==> Absent(r)
    ensures Absent(r) ==> Storable(r)
  {
    if r.OptionalValue? && r.opt.Some? {
      AbsentIsNothing(r.opt.value, key);
    }
  }

  lemma {:induction false} ArrayOfAbsent(vs: seq<ValueRule>)
    ensures ArrayElements(vs) == [] <==> forall i :: 0 <= i < |vs| ==> Absent(vs[i])
    ensures ArrayElements(vs) == [] ==> forall i :: 0 <= i < |vs| ==> Storable(vs[i])
    decreases |vs|
  {
    hide Absent, Storable, Appended, SlotKey;
    if vs != [] {
      var n := |vs| - 1;
      ArrayOfAbsent(vs[..n]);
      AbsentIsNothing(vs[n], SlotKey(n));
    }
  }

  lemma {:induction false} NothingIsStorable(e: ElementRule)
    requires ElementAppended(e) == []
    ensures ElementStorable(e)
  {
    match e
    case Pair(key, value) => AbsentIsNothing(value, key);
    case OptionalPair(key, opt) =>
      if opt.Some? {
        AbsentIsNothing(opt.value, key);
      }
    case Conditional(rule) =>
      if rule.Some? {
        NothingIsStorable(rule.value);
      }
  }

  lemma {:induction false} DocOfNothing(rules: seq<ElementRule>)
    ensures DocElements(rules) == [] <==> forall i :: 0 <= i < |rules| ==> ElementAppended(rules[i]) == []
    ensures DocElements(rules) == [] ==> forall i :: 0 <= i < |rules| ==> ElementStorable(rules[i])
    decreases |rules|
  {
    hide ElementStorable, ElementAppended;
    if rules != [] {
      var n := |rules| - 1;
      DocOfNothing(rules[..n]);
      if ElementAppended(rules[n]) == [] {
        NothingIsStorable(rules[n]);
      }
    }
  }

  /** A rule that appends nothing but empty documents and arrays. */
  predicate Hollow(r: ValueRule) {
    match r
    case Value(_) => false
    case Array(vs) => ArrayElements(vs) == []
    case Doc(rules) => DocElements(rules) == []
    case OptionalValue(opt) => opt.Some? ==> Hollow(opt.value)
  }

  predicate ElementHollow(e: ElementRule) {
    match e
    case Pair(_, value) => Hollow(value)
    case OptionalPair(_, opt) => opt.Some? ==> Hollow(opt.value)
    case Conditional(rule) => rule.Some? ==> ElementHollow(rule.value)
  }

  // ----- rules whose elements can be read back

  /** A value that the reader measures as it is stored. */
  ghost predicate CleanValue(v: ValueRef) {
    WellFormed(Normal(v)) && !v.Regex? && !v.DbPointer? && !v.CodeWithScope?
  }

  ghost predicate CleanRule(r: ValueRule)
    decreases r, 1
  {
    match r
    case Value(v) => CleanValue(v)
    case Array(vs) => forall i :: 0 <= i < |vs| ==> CleanRule(vs[i])
    case Doc(rules) => forall i :: 0 <= i < |rules| ==> ElementClean(rules[i])
    case OptionalValue(opt) => opt.Some? ==> CleanRule(opt.value)
  }

  ghost predicate ElementClean(e: ElementRule)
    decreases e, 1
  {
    match e
    case Pair(_, value) => CleanRule(value)
    case OptionalPair(_, opt) => opt.Some? ==> CleanRule(opt.value)
    case Conditional(rule) => rule.Some? ==> ElementClean(rule.value)
  }

  lemma CleanSingle(key: seq<byte>, v: ValueRef)
    requires CleanValue(v)
    ensures Clean([NewElement(key, v)])
  {
    hide Delimited, WellFormed, Chop, Written;
    NewElementReadable(key, v);
  }

  lemma CleanAppend(a: seq<Element>, b: seq<Element>)
    requires Clean(a) && Clean(b)
    ensures Clean(a + b)
  {
    hide CleanElement;
  }

  lemma {:induction false} PartialClean(added: seq<Element>, r: ValueRule, key: seq<byte>, refused: nat)
    requires Partial(added, r, key, refused) && CleanRule(r)
    ensures Clean(added)
    decreases r, 1
  {
    hide Chop, CleanValue, NewElement;
    match r
    case Value(v) => CleanSingle(key, v);
    case Array(vs) =>
      if added != [] {
        var inner :| PartialArray(inner, vs, refused) && added == [Element(Chop(key), Sub(true, inner))];
        PartialArrayClean(inner, vs, refused);
        assert CleanElement(added[0]);
      }
    case Doc(rules) =>
      if added != [] {
        var inner :| PartialDoc(inner, rules, refused) && added == [Element(Chop(key), Sub(false, inner))];
        PartialDocClean(inner, rules, refused);
        assert CleanElement(added[0]);
      }
    case OptionalValue(opt) =>
      if opt.Some? {
        PartialClean(added, opt.value, key, refused);
      }
  }

  lemma {:induction false} PartialArrayClean(added: seq<Element>, vs: seq<ValueRule>, refused: nat)
    requires PartialArray(added, vs, refused) && forall i :: 0 <= i < |vs| ==> CleanRule(vs[i])
    ensures Clean(added)
    decreases vs, 0
  {
    hide Clean, Partial, SlotKey, CleanRule;
    if vs != [] {
      var n := |vs| - 1;
      var a, b, i: nat, j: nat :| PartialArray(a, vs[..n], i) && Partial(b, vs[n], SlotKey(n), j)
        && added == a + b && refused == i + j;
      PartialArrayClean(a, vs[..n], i);
      PartialClean(b, vs[n], SlotKey(n), j);
      CleanAppend(a, b);
    } else {
      NothingClean();
    }
  }

  lemma NothingClean()
    ensures Clean([])
  {
  }

  lemma {:induction false} PartialElementClean(added: seq<Element>, e: ElementRule, refused: nat)
    requires PartialElement(added, e, refused) && ElementClean(e)
    ensures Clean(added)
    decreases e, 1
  {
    hide Clean, Partial, CleanRule;
    NothingClean();
    match e
    case Pair(key, value) => PartialClean(added, value, key, refused);
    case OptionalPair(key, opt) =>
      if opt.Some? {
        PartialClean(added, opt.value, key, refused);
      }
    case Conditional(rule) =>
      if rule.Some? {
        PartialElementClean(added, rule.value, refused);
      }
  }

  lemma {:induction false} PartialDocClean(added: seq<Element>, rules: seq<ElementRule>, refused: nat)
    requires PartialDoc(added, rules, refused) && forall i :: 0 <= i < |rules| ==> ElementClean(rules[i])
    ensures Clean(added)
    decreases rules, 0
  {
    hide Clean, PartialElement, ElementClean;
    if rules != [] {
      var n := |rules| - 1;
      var a, b, i: nat, j: nat :| PartialDoc(a, rules[..n], i) && PartialElement(b, rules[n], j)
        && added == a + b && refused == i + j;
      PartialDocClean(a, rules[..n], i);
      PartialElementClean(b, rules[n], j);
      CleanAppend(a, b);
    } else {
      NothingClean();
    }
  }
}
