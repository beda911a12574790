/**
 Walking the encoding of a tree: which trees the reader of `Iteration` reads
 back, element by element, wherever their bytes lie in memory.
 */
module Reading {
  import opened Bytes
  import opened Document
  import opened Iteration

  /**
   Value bytes that the reader measures correctly. For a document or array the
   last byte must be a terminator.
   */
  predicate Delimited(tag: byte, payload: seq<byte>) {
    |payload| < INT32_MAX &&
    if tag == TAG_REGEX then
      TwoNuls(payload) && |payload| == TwoStrings(payload)
    else if HasPrefix(tag) then
      |payload| >= 4 && AsInt32(ReadU32le(payload)) >= 0
      && ConstSize(tag) + AsInt32(ReadU32le(payload)) == |payload|
      && (tag == TAG_DOCUMENT || tag == TAG_ARRAY ==> payload[|payload| - 1] == 0)
    else ConstSize(tag) == |payload|
  }

  predicate ReadableElement(e: Element) {
    0 !in e.key && Delimited(e.node.Tag(), EncodeNode(e.node))
  }

  /** A document whose elements can all be read back and whose size fits its header. */
  predicate ReadableDoc(es: seq<Element>) {
    |EncodeDoc(es)| <= INT32_MAX && forall k :: 0 <= k < |es| ==> ReadableElement(es[k])
  }

  lemma SubIsDelimited(isArray: bool, es: seq<Element>)
    requires |EncodeDoc(es)| < INT32_MAX
    ensures Delimited(Sub(isArray, es).Tag(), EncodeDoc(es))
  {
    var body := EncodeList(es);
    ReadWriteU32(|body| + 5, body + [0]);
    Associate(U32le(|body| + 5), body, [0]);
  }

  /** A delimited value is measured exactly, whatever follows it. */
  lemma DelimitedSize(tag: byte, payload: seq<byte>, rest: seq<byte>)
    requires Delimited(tag, payload) && 0 < |rest| && |payload| + |rest| <= INT32_MAX
    ensures ValSize(tag, payload + rest, |payload| + |rest|) == Size(|payload|)
  {
    var v := payload + rest;
    if tag == TAG_REGEX {
      TwoStringsMeasured(payload, rest);
    } else if HasPrefix(tag) {
      assert v[0] == payload[0] && v[1] == payload[1] && v[2] == payload[2] && v[3] == payload[3];
    }
  }

  /** A regular expression is measured by its first two strings, whatever follows them. */
  lemma TwoStringsMeasured(payload: seq<byte>, rest: seq<byte>)
    requires TwoNuls(payload) && 0 < |rest| && |payload| + |rest| <= INT32_MAX
    ensures RegexSize(payload + rest, |payload| + |rest|) == Size(TwoStrings(payload))
  {
    hide Strnlen;
    var v := payload + rest;
    var rx := Strlen(payload) + 1;
    StrnlenPrefix(payload, |payload|, v, |v|);
    assert payload[rx..] <= v[rx..];
    StrnlenPrefix(payload[rx..], |payload| - rx, v[rx..], |v| - rx);
  }

  /** An encoded element followed by anything that ends in a terminator is recognised. */
  lemma ElementRecognised(tag: byte, key: seq<byte>, payload: seq<byte>, rest: seq<byte>)
    requires 0 !in key && Delimited(tag, payload)
    requires 0 < |rest| && rest[|rest| - 1] == 0
    requires 2 + |key| + |payload| + |rest| <= INT32_MAX
    ensures var s := [tag] + key + [0] + payload + rest;
      && ToTerminator(s) && ElementAt(s) == Elem(|key|) && KeyLen(s) == |key|
      && s[|key| + 2..] == payload + rest
      && Readable(tag, s[|key| + 2..], INT32_MAX)
      && ValSize(tag, s[|key| + 2..], INT32_MAX) == Size(|payload|)
  {
    var s := [tag] + key + [0] + payload + rest;
    var v := payload + rest;
    KeyOfElement(tag, key, payload, rest);
    DelimitedSize(tag, payload, rest);
    ValSizeLarger(tag, v, |v|, v, INT32_MAX);
    if tag == TAG_DOCUMENT || tag == TAG_ARRAY {
      LastOfPayload(tag, key, payload, rest);
    }
  }

  lemma KeyOfElement(tag: byte, key: seq<byte>, payload: seq<byte>, rest: seq<byte>)
    requires 0 !in key && 0 < |rest| && rest[|rest| - 1] == 0
    requires 2 + |key| + |payload| + |rest| <= INT32_MAX
    ensures var s := [tag] + key + [0] + payload + rest;
      ToTerminator(s) && s[0] == tag && KeyLen(s) == |key| && s[|key| + 2..] == payload + rest
  {
    var s := [tag] + key + [0] + payload + rest;
    var t := s[1..];
    assert t == key + [0] + payload + rest;
    assert t[|key|] == 0 && t[..|key|] == key;
    assert 0 in t;
    FirstNulUnique(t, Strlen(t), |key|);
  }

  lemma LastOfPayload(tag: byte, key: seq<byte>, payload: seq<byte>, rest: seq<byte>)
    requires Delimited(tag, payload) && (tag == TAG_DOCUMENT || tag == TAG_ARRAY)
    ensures ([tag] + key + [0] + payload + rest)[|key| + 2 + |payload| - 1] == 0
  {
  }

  // ----- element boundaries

  /** The iterator that refers to element `k` of a document that starts at `base`. */
  function IterFor(es: seq<Element>, k: nat, base: nat): Iterator
    requires k <= |es|
  {
    ElemOffsetsAscend(es, k, |es|);
    At(base + ElemOffset(es, k), if k == |es| then 0 else |es[k].key|, |EncodeDoc(es)| - ElemOffset(es, k))
  }

  /** The bytes of the document `es` lie in memory at `base`. */
  ghost predicate Holds(mem: seq<byte>, base: nat, es: seq<Element>) {
    base + |EncodeDoc(es)| <= |mem| && mem[base..base + |EncodeDoc(es)|] == EncodeDoc(es)
  }

  lemma TailOfDoc(mem: seq<byte>, base: nat, es: seq<Element>, k: nat)
    requires Holds(mem, base, es) && k <= |es|
    ensures var it := IterFor(es, k, base);
      it.pos + it.rlen <= |mem| && mem[it.pos..it.pos + it.rlen] == EncodeList(es[k..]) + [0]
  {
    hide EncodeList;
    ElemOffsetsAscend(es, k, |es|);
    EncodeListSplit(es, k);
    TailBytes(mem, base, U32le(|EncodeDoc(es)|), EncodeList(es[..k]), EncodeList(es[k..]));
  }

  lemma TailBytes(mem: seq<byte>, base: nat, h: seq<byte>, a: seq<byte>, z: seq<byte>)
    requires var n := |h| + |a| + |z| + 1;
      base + n <= |mem| && mem[base..base + n] == h + (a + z) + [0]
    ensures var from, to := base + |h| + |a|, base + |h| + |a| + |z| + 1;
      mem[from..to] == z + [0]
  {
    var n := |h| + |a| + |z| + 1;
    assert mem[base + |h| + |a|..base + n] == mem[base..base + n][|h| + |a|..];
  }

  /** At the boundary of a readable element the reader finds exactly that element. */
  lemma IteratorAtBoundary(mem: seq<byte>, base: nat, es: seq<Element>, k: nat)
    requires Holds(mem, base, es) && |EncodeDoc(es)| <= INT32_MAX && k <= |es|
    requires k < |es| ==> ReadableElement(es[k])
    ensures var it := IterFor(es, k, base);
      && Produced(mem, it)
      && (Stop(it) <==> k == |es|)
      && (k < |es| ==>
            && DataSize(mem, it) == |EncodeElement(es[k])|
            && Key(mem, it) == es[k].key)
  {
    hide EncodeList, EncodeElement;
    var it := IterFor(es, k, base);
    TailOfDoc(mem, base, es, k);
    if k == |es| {
      assert es[k..] == [];
      EmptyList();
    } else {
      var rest := EncodeList(es[k + 1..]) + [0];
      EncodeListPickTail(es, k);
      EncodeListPickHead(es, k);
      BoundaryElement(mem, it, es[k], rest);
    }
  }

  lemma EmptyList()
    ensures EncodeList([]) == []
  {
  }

  lemma BoundaryElement(mem: seq<byte>, it: Iterator, e: Element, rest: seq<byte>)
    requires it.At? && it.keylen == |e.key| && it.pos + it.rlen <= |mem| && it.rlen <= INT32_MAX
    requires it.rlen == |EncodeElement(e) + rest| && mem[it.pos..it.pos + it.rlen] == EncodeElement(e) + rest
    requires ReadableElement(e) && 0 < |rest| && rest[|rest| - 1] == 0
    ensures Produced(mem, it) && !Stop(it)
    ensures DataSize(mem, it) == |EncodeElement(e)|
    ensures Key(mem, it) == e.key
  {
    hide EncodeNode, Delimited, ValSize, ElementAt, KeyLen;
    ElementRecognised(e.node.Tag(), e.key, EncodeNode(e.node), rest);
    var s := mem[it.pos..it.pos + it.rlen];
    assert s == [e.node.Tag()] + e.key + [0] + EncodeNode(e.node) + rest;
    assert s[1..1 + |e.key|] == e.key;
    Slices(mem, it.pos, it.pos + it.rlen, 1, 1 + |e.key|);
  }

  // ----- elements that the reader measures otherwise

  /** An element whose value is measured as `m` bytes, right or wrong, is recognised with that size. */
  lemma MeasuredRecognised(tag: byte, key: seq<byte>, payload: seq<byte>, rest: seq<byte>, m: nat)
    requires 0 !in key && tag != TAG_DOCUMENT && tag != TAG_ARRAY
    requires 0 < |rest| && rest[|rest| - 1] == 0 && 2 + |key| + |payload| + |rest| <= INT32_MAX
    requires ValSize(tag, payload + rest, |payload| + |rest|) == Size(m)
    ensures var s := [tag] + key + [0] + payload + rest;
      && ToTerminator(s) && ElementAt(s) == Elem(|key|) && KeyLen(s) == |key|
      && s[|key| + 2..] == payload + rest
      && Readable(tag, s[|key| + 2..], INT32_MAX)
      && ValSize(tag, s[|key| + 2..], INT32_MAX) == Size(m)
  {
    hide ValSize;
    var v := payload + rest;
    KeyOfElement(tag, key, payload, rest);
    ValSizeLarger(tag, v, |v|, v, INT32_MAX);
  }

  /** At the boundary of such an element the reader finds its key, and goes on `m` bytes behind it. */
  lemma MeasuredAtBoundary(mem: seq<byte>, base: nat, es: seq<Element>, k: nat, m: nat)
    requires Holds(mem, base, es) && |EncodeDoc(es)| <= INT32_MAX && k < |es|
    requires es[k].node.Leaf? && 0 !in es[k].key && es[k].node.tag != TAG_DOCUMENT && es[k].node.tag != TAG_ARRAY
    requires var payload, rest := es[k].node.payload, EncodeList(es[k + 1..]) + [0];
      |payload| + |rest| <= INT32_MAX && ValSize(es[k].node.tag, payload + rest, |payload| + |rest|) == Size(m)
    ensures var it := IterFor(es, k, base);
      && Produced(mem, it) && !Stop(it)
      && DataSize(mem, it) == |es[k].key| + 2 + m
      && Key(mem, it) == es[k].key
  {
    hide EncodeList, EncodeElement, ValSize, ElementAt, KeyLen;
    var it, e, rest := IterFor(es, k, base), es[k], EncodeList(es[k + 1..]) + [0];
    TailOfDoc(mem, base, es, k);
    EncodeListPickTail(es, k);
    ElementBytes(e);
    assert EncodeElement(e) + rest == [e.node.tag] + e.key + [0] + e.node.payload + rest;
    hide Holds;
    MeasuredIterator(mem, it, e, rest, m);
  }

  lemma MeasuredIterator(mem: seq<byte>, it: Iterator, e: Element, rest: seq<byte>, m: nat)
    requires it.At? && it.keylen == |e.key| && it.pos + it.rlen <= |mem| && it.rlen <= INT32_MAX
    requires e.node.Leaf? && 0 !in e.key && e.node.tag != TAG_DOCUMENT && e.node.tag != TAG_ARRAY
    requires mem[it.pos..it.pos + it.rlen] == [e.node.tag] + e.key + [0] + e.node.payload + rest
    requires 0 < |rest| && rest[|rest| - 1] == 0
    requires |e.node.payload| + |rest| <= INT32_MAX
    requires ValSize(e.node.tag, e.node.payload + rest, |e.node.payload| + |rest|) == Size(m)
    ensures Produced(mem, it) && !Stop(it)
    ensures DataSize(mem, it) == |e.key| + 2 + m
    ensures Key(mem, it) == e.key
  {
    hide ValSize, ElementAt, KeyLen;
    var s := mem[it.pos..it.pos + it.rlen];
    MeasuredRecognised(e.node.tag, e.key, e.node.payload, rest, m);
    assert s[1..1 + |e.key|] == e.key;
    Slices(mem, it.pos, it.pos + it.rlen, 1, 1 + |e.key|);
  }

  lemma Slices(mem: seq<byte>, a: nat, b: nat, c: nat, d: nat)
    requires a <= b <= |mem| && c <= d <= b - a
    ensures mem[a..b][c..d] == mem[a + c..a + d]
  {
    var s, t := mem[a..b][c..d], mem[a + c..a + d];
    forall i | 0 <= i < d - c
      ensures s[i] == t[i]
    {
      assert mem[a..b][c + i] == mem[a + c + i];
    }
  }

  /** The walk from element `k` of a document at `base` visits exactly its elements and stops at its end. */
  ghost predicate VisitsExactly(mem: seq<byte>, base: nat, es: seq<Element>, k: nat)
    requires k <= |es|
  {
    Produced(mem, IterFor(es, k, base)) &&
    var t := Walk(mem, IterFor(es, k, base));
    && |t.visited| == |es| - k
    && (forall i :: 0 <= i < |es| - k ==> t.visited[i] == IterFor(es, k + i, base))
    && t.last == IterFor(es, |es|, base)
  }

  /** Walking a readable document visits exactly its elements, in order, and stops at its end. */
  lemma {:induction false} WalkVisitsElements(mem: seq<byte>, base: nat, es: seq<Element>, k: nat)
    requires Holds(mem, base, es) && ReadableDoc(es) && k <= |es|
    ensures VisitsExactly(mem, base, es, k)
    decreases |es| - k
  {
    hide Holds, ReadableDoc, IterFor, Walk, Produced, Next, Stop;
    var it := IterFor(es, k, base);
    EachReadable(es);
    IteratorAtBoundary(mem, base, es, k);
    WalkStep(mem, it);
    if k < |es| {
      NextBoundary(mem, base, es, k);
      WalkVisitsElements(mem, base, es, k + 1);
      var rest := Walk(mem, IterFor(es, k + 1, base));
      var t := Walk(mem, it);
      assert t.visited == [it] + rest.visited;
      forall i | 0 <= i < |es| - k
        ensures t.visited[i] == IterFor(es, k + i, base)
      {
        if i > 0 {
          assert t.visited[i] == rest.visited[i - 1];
        }
      }
    }
  }

  lemma EachReadable(es: seq<Element>)
    requires ReadableDoc(es)
    ensures |EncodeDoc(es)| <= INT32_MAX
    ensures forall k :: 0 <= k < |es| ==> ReadableElement(es[k])
  {
  }

  lemma WalkStep(mem: seq<byte>, it: Iterator)
    requires Produced(mem, it)
    ensures Stop(it) ==> Walk(mem, it) == Trace([], it)
    ensures !Stop(it) ==> Walk(mem, it) == Trace([it] + Walk(mem, Next(mem, it)).visited, Walk(mem, Next(mem, it)).last)
  {
    hide Next, IteratorAt, DataSize;
  }

  lemma NextBoundary(mem: seq<byte>, base: nat, es: seq<Element>, k: nat)
    requires Holds(mem, base, es) && k < |es| && |EncodeDoc(es)| <= INT32_MAX
    requires ReadableElement(es[k]) && (k + 1 < |es| ==> ReadableElement(es[k + 1]))
    ensures Produced(mem, IterFor(es, k, base)) && !Stop(IterFor(es, k, base))
    ensures Next(mem, IterFor(es, k, base)) == IterFor(es, k + 1, base)
  {
    hide EncodeList, EncodeElement, Holds, ReadableElement, IteratorAt, DataSize;
    IteratorAtBoundary(mem, base, es, k);
    IteratorAtBoundary(mem, base, es, k + 1);
    EncodeListPickHead(es, k);
    var it, it' := IterFor(es, k, base), IterFor(es, k + 1, base);
    assert it'.pos == it.pos + DataSize(mem, it) && it'.rlen == it.rlen - DataSize(mem, it);
  }

  /** Behind an element that is measured whole, the reader finds nothing but the next one with its key, or the end. */
  lemma NextIsBoundary(mem: seq<byte>, base: nat, es: seq<Element>, k: nat)
    requires Holds(mem, base, es) && k < |es| && |EncodeDoc(es)| <= INT32_MAX
    requires k + 1 < |es| ==> 0 !in es[k + 1].key
    requires var it := IterFor(es, k, base);
      && Produced(mem, it) && !Stop(it) && Next(mem, it).At?
      && DataSize(mem, it) == |EncodeElement(es[k])|
    ensures Next(mem, IterFor(es, k, base)) == IterFor(es, k + 1, base)
  {
    hide EncodeList, EncodeElement, Holds, ElementAt, DataSize, IteratorAt, Next, Produced;
    var it, it' := IterFor(es, k, base), IterFor(es, k + 1, base);
    EncodeListPickHead(es, k);
    TailOfDoc(mem, base, es, k + 1);
    ProducedBytes(mem, Next(mem, it));
    TailKeylen(es, k + 1);
  }

  /** What the reader found where an iterator stands. */
  lemma ProducedBytes(mem: seq<byte>, it: Iterator)
    requires Produced(mem, it) && it.At?
    ensures it.pos + it.rlen <= |mem| && ToTerminator(mem[it.pos..it.pos + it.rlen])
    ensures var parsed := ElementAt(mem[it.pos..it.pos + it.rlen]);
      parsed == Elem(it.keylen) || (parsed.Terminator? && it == At(it.pos, 0, 1))
  {
    hide ElementAt;
  }

  /** The key the reader finds at an element boundary, if it recognises the element. */
  lemma TailKeylen(es: seq<Element>, k: nat)
    requires k <= |es| && (k < |es| ==> 0 !in es[k].key) && ToTerminator(EncodeList(es[k..]) + [0])
    ensures var s := EncodeList(es[k..]) + [0];
      && (ElementAt(s).Elem? ==> k < |es| && ElementAt(s).keylen == |es[k].key|)
      && (ElementAt(s).Terminator? ==> k == |es|)
  {
    hide EncodeList, EncodeElement, EncodeNode, KeyLen, ValSize, ElementAt;
    if k < |es| {
      var e, rest := es[k], EncodeList(es[k + 1..]) + [0];
      EncodeListPickTail(es, k);
      ElementBytes(e);
      Associate(EncodeElement(e), EncodeList(es[k + 1..]), [0]);
      var s := EncodeList(es[k..]) + [0];
      assert s == [e.node.Tag()] + e.key + [0] + EncodeNode(e.node) + rest;
      KeyOfElement(e.node.Tag(), e.key, EncodeNode(e.node), rest);
      ElemKeylen(s);
    } else {
      assert es[k..] == [];
      EmptyList();
      assert EncodeList(es[k..]) + [0] == [0];
      LoneTerminator();
    }
  }

  lemma LoneTerminator()
    ensures ToTerminator([0]) && ElementAt([0]) == Terminator
  {
  }

  lemma ElemKeylen(s: seq<byte>)
    requires ToTerminator(s) && |s| > 1
    ensures !ElementAt(s).Terminator? && (ElementAt(s).Elem? ==> ElementAt(s).keylen == KeyLen(s))
  {
    hide KeyLen, ValSize;
  }

  // ----- trees that are readable at every depth

  /** No key has a NUL, and every value but the documents and arrays is measured by its own length. */
  predicate Clean(es: seq<Element>)
    decreases es, 0
  {
    forall i :: 0 <= i < |es| ==> CleanElement(es[i])
  }

  predicate CleanElement(e: Element)
    decreases e, 1
  {
    0 !in e.key &&
    match e.node
    case Leaf(tag, payload) => Delimited(tag, payload)
    case Sub(_, es) => Clean(es)
  }

  lemma NestedSize(es: seq<Element>, k: nat)
    requires k < |es| && es[k].node.Sub?
    ensures |EncodeDoc(es[k].node.es)| < |EncodeDoc(es)|
  {
    hide EncodeList;
    EncodeListPick(es, k);
    ElementBytes(es[k]);
  }

  /** Of a clean tree that fits a header, the document at every path is readable. */
  lemma {:induction false} CleanIsReadable(es: seq<Element>, path: seq<nat>)
    requires Clean(es) && ValidPath(es, path) && |EncodeDoc(es)| <= INT32_MAX
    ensures ReadableDoc(Inner(es, path))
  {
    hide EncodeDoc, Delimited;
    if path == [] {
      forall k | 0 <= k < |es|
        ensures ReadableElement(es[k])
      {
        assert CleanElement(es[k]);
        if es[k].node.Sub? {
          NestedSize(es, k);
          SubIsDelimited(es[k].node.isArray, es[k].node.es);
        }
      }
    } else {
      assert CleanElement(es[path[0]]);
      NestedSize(es, path[0]);
      CleanIsReadable(es[path[0]].node.es, path[1..]);
    }
  }

  /** Where the document at `path` starts. */
  function NestedBase(base: nat, es: seq<Element>, path: seq<nat>): nat
    requires ValidPath(es, path)
    decreases |path|
  {
    if path == [] then base
    else
      var k := path[0];
      NestedBase(base + ElemOffset(es, k) + 2 + |es[k].key|, es[k].node.es, path[1..])
  }

  lemma {:induction false} NestedHeld(mem: seq<byte>, base: nat, es: seq<Element>, path: seq<nat>)
    requires Holds(mem, base, es) && ValidPath(es, path)
    ensures Holds(mem, NestedBase(base, es, path), Inner(es, path))
    decreases |path|
  {
    hide Holds, EncodeDoc, ElemOffset;
    if path != [] {
      ChildHeld(mem, base, es, path[0]);
      NestedHeld(mem, base + ElemOffset(es, path[0]) + 2 + |es[path[0]].key|, es[path[0]].node.es, path[1..]);
    }
  }

  lemma ChildHeld(mem: seq<byte>, base: nat, es: seq<Element>, k: nat)
    requires Holds(mem, base, es) && k < |es| && es[k].node.Sub?
    ensures Holds(mem, base + ElemOffset(es, k) + 2 + |es[k].key|, es[k].node.es)
  {
    hide EncodeDoc, EncodeList, U32le;
    var h, lead, sub := U32le(|EncodeDoc(es)|), Lead(es, k), EncodeDoc(es[k].node.es);
    var tail := EncodeList(es[k + 1..]) + [0];
    DocumentAround(es, k);
    var b := h + lead + sub + tail;
    assert b[4 + |lead|..4 + |lead| + |sub|] == sub;
    Slices(mem, base, base + |b|, 4 + |lead|, 4 + |lead| + |sub|);
  }

  /** At every depth of a clean tree, walking visits exactly the elements of the document there. */
  lemma CleanWalks(mem: seq<byte>, base: nat, es: seq<Element>, path: seq<nat>)
    requires Holds(mem, base, es) && Clean(es) && |EncodeDoc(es)| <= INT32_MAX && ValidPath(es, path)
    ensures VisitsExactly(mem, NestedBase(base, es, path), Inner(es, path), 0)
  {
    CleanIsReadable(es, path);
    NestedHeld(mem, base, es, path);
    WalkVisitsElements(mem, NestedBase(base, es, path), Inner(es, path), 0);
  }

  // ----- edits keep a tree clean

  lemma {:induction false} CleanUpdate(es: seq<Element>, path: seq<nat>, inner: seq<Element>)
    requires Clean(es) && ValidPath(es, path) && Clean(inner)
    ensures Clean(Update(es, path, inner))
  {
    hide Delimited;
    if path != [] {
      assert CleanElement(es[path[0]]);
      CleanUpdate(es[path[0]].node.es, path[1..], inner);
    }
  }

  lemma {:induction false} CleanInner(es: seq<Element>, path: seq<nat>)
    requires Clean(es) && ValidPath(es, path)
    ensures Clean(Inner(es, path))
  {
    if path != [] {
      assert CleanElement(es[path[0]]);
      CleanInner(es[path[0]].node.es, path[1..]);
    }
  }

  /** Replacing elements of the document at a path by clean ones; inserting and erasing are special cases. */
  lemma CleanReplace(es: seq<Element>, path: seq<nat>, i: nat, j: nat, new_: seq<Element>)
    requires Clean(es) && ValidPath(es, path) && i <= j <= |Inner(es, path)| && Clean(new_)
    ensures Clean(Update(es, path, Replace(Inner(es, path), i, j, new_)))
  {
    hide CleanElement;
    CleanInner(es, path);
    CleanUpdate(es, path, Replace(Inner(es, path), i, j, new_));
  }
}
