/**
 What the reader makes of arbitrary bytes up to a terminator: the elements it
 recognises one after another, and the bytes at which it stops (`_bson_iterator_at`
 and `bson_next` in `include/bson/iterator.h`).
 */
module Recognition {
  import opened Bytes
  import opened Document
  import opened Iteration
  import opened Reading

  /** The size of the element that starts `s`, as it is measured. */
  function FirstSize(s: seq<byte>): (n: nat)
    requires ToTerminator(s) && ElementAt(s).Elem?
    ensures |s| > 2 && KeyLen(s) + 2 <= n < |s|
  {
    ElementFits(s);
    KeyLen(s) + 2 + ValSize(s[0], s[KeyLen(s) + 2..], INT32_MAX).n
  }

  function First(s: seq<byte>): Element
    requires ToTerminator(s) && ElementAt(s).Elem?
  {
    hide ElementAt, KeyLen;
    var n := FirstSize(s);
    Element(s[1..KeyLen(s) + 1], Leaf(s[0], s[KeyLen(s) + 2..n]))
  }

  lemma FirstBytes(s: seq<byte>)
    requires ToTerminator(s) && ElementAt(s).Elem?
    ensures s == EncodeElement(First(s)) + s[FirstSize(s)..]
    ensures |First(s).key| == KeyLen(s) && |EncodeElement(First(s))| == FirstSize(s)
    ensures ToTerminator(s[FirstSize(s)..])
  {
    hide ElementAt, KeyLen, FirstSize;
    var n, keylen := FirstSize(s), KeyLen(s);
    assert s[..n] == [s[0]] + s[1..keylen + 1] + [0] + s[keylen + 2..n];
    assert s == s[..n] + s[n..];
  }

  /** The elements that the reader recognises one after another. */
  function Seen(s: seq<byte>): seq<Element>
    requires ToTerminator(s)
    decreases |s|
  {
    if ElementAt(s).Elem? then
      FirstBytes(s);
      [First(s)] + Seen(s[FirstSize(s)..])
    else []
  }

  /** The bytes at which the reader stops: at the terminator, with an error, or with an abort. */
  function Unread(s: seq<byte>): seq<byte>
    requires ToTerminator(s)
    decreases |s|
  {
    if ElementAt(s).Elem? then
      FirstBytes(s);
      Unread(s[FirstSize(s)..])
    else s
  }

  /** What the reader has still before it when it has recognised `m` elements. */
  function After(s: seq<byte>, m: nat): seq<byte>
    requires ToTerminator(s) && m <= |Seen(s)|
  {
    EncodeList(Seen(s)[m..]) + Unread(s)
  }

  lemma SeenStep(s: seq<byte>)
    requires ToTerminator(s)
    ensures ElementAt(s).Elem? ==>
      && ToTerminator(s[FirstSize(s)..])
      && Seen(s) == [First(s)] + Seen(s[FirstSize(s)..]) && Unread(s) == Unread(s[FirstSize(s)..])
    ensures !ElementAt(s).Elem? ==> Seen(s) == [] && Unread(s) == s
  {
    hide ElementAt, First, FirstSize;
    if ElementAt(s).Elem? {
      FirstBytes(s);
    }
  }

  /** The bytes are those of the recognised elements followed by the unread ones. */
  lemma {:induction false} SeenBytes(s: seq<byte>)
    requires ToTerminator(s)
    ensures s == EncodeList(Seen(s)) + Unread(s)
    ensures ToTerminator(Unread(s)) && !ElementAt(Unread(s)).Elem?
    decreases |s|
  {
    hide ElementAt, First, FirstSize, EncodeElement, Seen, Unread, EncodeList, KeyLen;
    SeenStep(s);
    if ElementAt(s).Elem? {
      FirstBytes(s);
      var t := s[FirstSize(s)..];
      SeenBytes(t);
      EncodeListAppend([First(s)], Seen(t));
      EncodeListSingle(First(s));
      Associate(EncodeElement(First(s)), EncodeList(Seen(t)), Unread(t));
    } else {
      EmptyList();
      assert [] + s == s;
    }
  }

  /** Having recognised `m` elements, the reader recognises the next one, or stops at the unread bytes. */
  lemma {:induction false} AfterStep(s: seq<byte>, m: nat)
    requires ToTerminator(s) && m <= |Seen(s)|
    ensures ToTerminator(After(s, m)) && (ElementAt(After(s, m)).Elem? <==> m < |Seen(s)|)
    ensures m < |Seen(s)| ==>
      && First(After(s, m)) == Seen(s)[m]
      && After(s, m)[FirstSize(After(s, m))..] == After(s, m + 1)
    ensures m == |Seen(s)| ==> After(s, m) == Unread(s)
    ensures After(s, 0) == s
    decreases m
  {
    hide ElementAt, First, FirstSize, EncodeElement, Seen, Unread, EncodeList, KeyLen;
    SeenStep(s);
    SeenBytes(s);
    assert Seen(s)[0..] == Seen(s);
    if m == |Seen(s)| {
      assert Seen(s)[m..] == [];
      EmptyList();
      assert [] + Unread(s) == Unread(s);
    }
    if m < |Seen(s)| {
      var t := s[FirstSize(s)..];
      SeenBytes(t);
      if m == 0 {
        assert Seen(s)[1..] == Seen(t);
      } else {
        AfterStep(t, m - 1);
        assert Seen(s)[m..] == Seen(t)[m - 1..] && Seen(s)[m + 1..] == Seen(t)[m..];
      }
    }
  }

  // ----- iterators and the bytes they stand at

  /** `it` is what the reader makes of the bytes `t`, which lie at `pos`. */
  ghost predicate StandsAt(mem: seq<byte>, it: Iterator, pos: nat, t: seq<byte>) {
    ToTerminator(t) && pos + |t| <= |mem| && mem[pos..pos + |t|] == t && it == IteratorAt(mem, pos, |t|)
  }

  lemma StandsThere(mem: seq<byte>, pos: nat, t: seq<byte>)
    requires ToTerminator(t) && pos + |t| <= |mem| && mem[pos..pos + |t|] == t
    ensures Spans(mem, pos, |t|)
    ensures StandsAt(mem, IteratorAt(mem, pos, |t|), pos, t)
    ensures var it := IteratorAt(mem, pos, |t|);
      && Produced(mem, it)
      && (ElementAt(t).Elem? ==> it == At(pos, ElementAt(t).keylen, |t|))
      && (Stop(it) <==> !ElementAt(t).Elem?) && (it.Aborted? <==> ElementAt(t).Aborts?)
      && (it.Errant? <==> ElementAt(t).Malformed?)
  {
    hide KeyLen, ValSize;
  }

  /** Going on from a recognised element. */
  lemma NextStands(mem: seq<byte>, pos: nat, t: seq<byte>)
    requires ToTerminator(t) && pos + |t| <= |mem| && mem[pos..pos + |t|] == t && ElementAt(t).Elem?
    ensures var it := At(pos, ElementAt(t).keylen, |t|);
      Produced(mem, it) && !Stop(it) && StandsAt(mem, Next(mem, it), pos + FirstSize(t), t[FirstSize(t)..])
  {
    hide ElementAt, KeyLen, ValSize, FirstSize, IteratorAt, DataSize, EncodeElement;
    var n := FirstSize(t);
    StandsThere(mem, pos, t);
    SizeThere(mem, pos, t);
    FirstBytes(t);
    Slices(mem, pos, pos + |t|, n, |t|);
    StandsThere(mem, pos + n, t[n..]);
  }

  lemma SizeThere(mem: seq<byte>, pos: nat, t: seq<byte>)
    requires ToTerminator(t) && pos + |t| <= |mem| && mem[pos..pos + |t|] == t && ElementAt(t).Elem?
    ensures var it := At(pos, ElementAt(t).keylen, |t|);
      Produced(mem, it) && !Stop(it) && DataSize(mem, it) == FirstSize(t)
  {
    hide ElementAt, KeyLen, ValSize, FirstSize, IteratorAt;
    StandsThere(mem, pos, t);
    FirstKeylen(t);
    FirstSizeIs(t);
  }

  lemma FirstKeylen(t: seq<byte>)
    requires ToTerminator(t) && ElementAt(t).Elem?
    ensures |t| > 2 && ElementAt(t).keylen == KeyLen(t)
  {
    hide KeyLen, ValSize;
    ElementFits(t);
  }

  /** A walk visits exactly the recognised elements, where they lie. */
  lemma {:induction false} VisitedAreSeen(mem: seq<byte>, it: Iterator, pos: nat, t: seq<byte>)
    requires StandsAt(mem, it, pos, t)
    ensures Produced(mem, it) && |Walk(mem, it).visited| == |Seen(t)|
    ensures forall i :: 0 <= i < |Seen(t)| ==>
      var at := Walk(mem, it).visited[i];
      at.At? && at.pos == pos + |EncodeList(Seen(t)[..i])| && at.keylen == |Seen(t)[i].key|
    decreases |t|
  {
    hide ElementAt, KeyLen, FirstSize, First, IteratorAt, Next, EncodeList, EncodeElement, Seen, Walk, Produced;
    StandsThere(mem, pos, t);
    SeenStep(t);
    WalkStep(mem, it);
    if ElementAt(t).Elem? {
      var n := FirstSize(t);
      FirstKeylen(t);
      FirstBytes(t);
      NextStands(mem, pos, t);
      VisitedAreSeen(mem, Next(mem, it), pos + n, t[n..]);
      var seen, rest := Seen(t), Seen(t[n..]);
      var visited, later := Walk(mem, it).visited, Walk(mem, Next(mem, it)).visited;
      forall i | 0 <= i < |seen|
        ensures visited[i].At? && visited[i].pos == pos + |EncodeList(seen[..i])| && visited[i].keylen == |seen[i].key|
      {
        if i == 0 {
          assert seen[..0] == [];
          EmptyList();
        } else {
          assert visited[i] == later[i - 1] && seen[i] == rest[i - 1];
          assert seen[..i] == [First(t)] + rest[..i - 1];
          EncodeListAppend([First(t)], rest[..i - 1]);
          EncodeListSingle(First(t));
        }
      }
    }
  }

  // ----- the elements of an encoded tree

  /** An element with its value as opaque bytes. */
  function Flat(e: Element): Element {
    Element(e.key, Leaf(e.node.Tag(), EncodeNode(e.node)))
  }

  function FlatList(es: seq<Element>): (r: seq<Element>)
    ensures |r| == |es|
  {
    seq(|es|, i requires 0 <= i < |es| => Flat(es[i]))
  }

  /** An element that is measured as `m` of the bytes of its value. */
  lemma MeasuredFirst(tag: byte, key: seq<byte>, value: seq<byte>, rest: seq<byte>, m: nat)
    requires 0 !in key && m <= |value| && 0 < |rest| && rest[|rest| - 1] == 0
    requires var s := [tag] + key + [0] + value + rest;
      && ToTerminator(s) && ElementAt(s) == Elem(|key|) && KeyLen(s) == |key|
      && s[|key| + 2..] == value + rest
      && Readable(tag, s[|key| + 2..], INT32_MAX)
      && ValSize(tag, s[|key| + 2..], INT32_MAX) == Size(m)
    ensures var s := [tag] + key + [0] + value + rest;
      && First(s) == Element(key, Leaf(tag, value[..m]))
      && FirstSize(s) == |key| + 2 + m && s[FirstSize(s)..] == value[m..] + rest
      && ToTerminator(s[FirstSize(s)..])
  {
    hide ElementAt, KeyLen, ValSize, Readable, ToTerminator;
    var s := [tag] + key + [0] + value + rest;
    FirstBytes(s);
    ElementSlices(tag, key, value, rest, m);
  }

  lemma ElementSlices(tag: byte, key: seq<byte>, value: seq<byte>, rest: seq<byte>, m: nat)
    requires m <= |value|
    ensures var s := [tag] + key + [0] + value + rest;
      && s[0] == tag && s[1..|key| + 1] == key
      && s[|key| + 2..|key| + 2 + m] == value[..m] && s[|key| + 2 + m..] == value[m..] + rest
  {
  }

  /** A readable element is recognised as it is. */
  lemma ReadableFirst(e: Element, rest: seq<byte>)
    requires ReadableElement(e) && 0 < |rest| && rest[|rest| - 1] == 0 && |EncodeElement(e) + rest| <= INT32_MAX
    ensures var s := EncodeElement(e) + rest;
      ToTerminator(s) && ToTerminator(rest) && Seen(s) == [Flat(e)] + Seen(rest) && Unread(s) == Unread(rest)
  {
    hide ElementAt, KeyLen, ValSize, Delimited, Seen, Unread, First, FirstSize, EncodeNode;
    var value := EncodeNode(e.node);
    ElementRecognised(e.node.Tag(), e.key, value, rest);
    MeasuredFirst(e.node.Tag(), e.key, value, rest, |value|);
    assert value[..|value|] == value && value[|value|..] + rest == rest;
    assert EncodeElement(e) + rest == [e.node.Tag()] + e.key + [0] + value + rest;
    SeenStep(EncodeElement(e) + rest);
  }

  /** Of readable elements followed by other bytes, the reader recognises exactly these, and goes on behind them. */
  lemma {:induction false} SeenReadable(es: seq<Element>, rest: seq<byte>)
    requires forall i :: 0 <= i < |es| ==> ReadableElement(es[i])
    requires 0 < |rest| && rest[|rest| - 1] == 0 && |EncodeList(es) + rest| <= INT32_MAX
    ensures var s := EncodeList(es) + rest;
      ToTerminator(s) && ToTerminator(rest) && Seen(s) == FlatList(es) + Seen(rest) && Unread(s) == Unread(rest)
  {
    hide ReadableElement, Seen, Unread, EncodeElement, EncodeList, Flat;
    if es == [] {
      EmptyList();
      assert [] + rest == rest;
    } else {
      EncodeListPickTail(es, 0);
      assert es[0..] == es;
      Associate(EncodeElement(es[0]), EncodeList(es[1..]), rest);
      SeenReadable(es[1..], rest);
      ReadableFirst(es[0], EncodeList(es[1..]) + rest);
      assert FlatList(es) == [Flat(es[0])] + FlatList(es[1..]);
    }
  }

  lemma SeenTerminator()
    ensures ToTerminator([0]) && Seen([0]) == [] && Unread([0]) == [0]
  {
  }

  // ----- another key

  /** The bytes `s` with another key for their first element. */
  function WithKey(s: seq<byte>, key: seq<byte>): (r: seq<byte>)
    requires ToTerminator(s) && ElementAt(s).Elem?
    ensures |s| > 2 && |r| == |s| - KeyLen(s) + |key|
  {
    FirstBytes(s);
    [s[0]] + key + [0] + s[KeyLen(s) + 2..]
  }

  /** With another key the first element is measured as before, and what follows it is the same. */
  lemma WithKeyRecognised(s: seq<byte>, key: seq<byte>)
    requires ToTerminator(s) && ElementAt(s).Elem? && 0 !in key && |WithKey(s, key)| <= INT32_MAX
    ensures var s' := WithKey(s, key);
      && ToTerminator(s') && ElementAt(s') == Elem(|key|)
      && FirstSize(s') == FirstSize(s) - KeyLen(s) + |key|
      && s'[FirstSize(s')..] == s[FirstSize(s)..]
      && s' == EncodeElement(First(s).(key := key)) + s[FirstSize(s)..]
  {
    hide ValSize, FirstSize, First, KeyLen, EncodeElement;
    var v := s[KeyLen(s) + 2..];
    KeyOfElement(s[0], key, [], v);
    assert [s[0]] + key + [0] + [] + v == WithKey(s, key);
    SameValueRecognised(s, WithKey(s, key));
    FirstSizeIs(s);
    FirstSizeIs(WithKey(s, key));
    WithKeyBytes(s, key);
  }

  lemma FirstSizeIs(s: seq<byte>)
    requires ToTerminator(s) && ElementAt(s).Elem?
    ensures |s| > 2 && Readable(s[0], s[KeyLen(s) + 2..], INT32_MAX)
    ensures ValSize(s[0], s[KeyLen(s) + 2..], INT32_MAX) == Size(FirstSize(s) - KeyLen(s) - 2)
  {
    hide ElementAt, KeyLen, ValSize;
    ElementFits(s);
  }

  /** Whether an element is recognised depends on its tag and on the bytes from its value on. */
  lemma SameValueRecognised(s: seq<byte>, s': seq<byte>)
    requires ToTerminator(s) && ElementAt(s).Elem? && ToTerminator(s') && |s| > 2 && |s'| > 2
    requires s[0] == s'[0] && s[KeyLen(s) + 2..] == s'[KeyLen(s') + 2..]
    ensures ElementAt(s') == Elem(KeyLen(s'))
  {
    hide KeyLen, ValSize;
    var v, v' := s[KeyLen(s) + 2..], s'[KeyLen(s') + 2..];
    assert |v| == |v'|;
    ElementFits(s);
    var n := ValSize(s[0], v, |v|).n;
    assert n > 0 ==> s[KeyLen(s) + 2 + n - 1] == v[n - 1] && s'[KeyLen(s') + 2 + n - 1] == v'[n - 1];
  }

  lemma WithKeyBytes(s: seq<byte>, key: seq<byte>)
    requires ToTerminator(s) && ElementAt(s).Elem?
    ensures WithKey(s, key) == EncodeElement(First(s).(key := key)) + s[FirstSize(s)..]
    ensures |EncodeElement(First(s).(key := key))| == FirstSize(s) - KeyLen(s) + |key|
  {
    hide ElementAt, KeyLen, FirstSize;
    FirstBytes(s);
    var n, keylen := FirstSize(s), KeyLen(s);
    assert s[keylen + 2..] == s[keylen + 2..n] + s[n..];
  }
}
