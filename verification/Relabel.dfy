/**
 Relabelling the keys of an array (`bson_relabel_array_elements_at` in
 `include/bson/mut.h`): the loop goes from element to element as the reader
 recognises them, and ends where the reader stops.
 */
module Relabel {
  import opened Bytes
  import opened Frames
  import opened Document
  import opened Iteration
  import opened Reading
  import opened Recognition
  import opened Values
  import opened Storage
  import opened Mutator
  import opened Tracking
  import opened Insertion
  import opened Decimal
  import opened Ranges

  // ----- relabelled bytes

  function Labelled(es: seq<Element>, key: seq<byte>): (r: seq<Element>)
    ensures |r| == |es|
  {
    seq(|es|, i requires 0 <= i < |es| => es[i].(key := key))
  }

  lemma LabelledSnoc(es: seq<Element>, m: nat, key: seq<byte>)
    requires m < |es|
    ensures EncodeList(Labelled(es[..m + 1], key))
         == EncodeList(Labelled(es[..m], key)) + EncodeElement(es[m].(key := key))
  {
    hide EncodeList, EncodeElement;
    assert Labelled(es[..m + 1], key) == Labelled(es[..m], key) + [es[m].(key := key)];
    EncodeListAppend(Labelled(es[..m], key), [es[m].(key := key)]);
    EncodeListSingle(es[m].(key := key));
  }

  function Front(s: seq<byte>): (r: seq<byte>)
    requires 0 < |s|
    ensures |r| == |s| - 1
  {
    s[..|s| - 1]
  }

  /** What stands before the next element when the first `m` that are recognised in `s` are relabelled. */
  function Done(lead: seq<byte>, s: seq<byte>, m: nat, key: seq<byte>): seq<byte>
    requires ToTerminator(s) && m <= |Seen(s)|
  {
    lead + EncodeList(Labelled(Seen(s)[..m], key))
  }

  /** The body of a document that was `lead + Front(s)`. */
  function LabelledBody(lead: seq<byte>, s: seq<byte>, m: nat, key: seq<byte>): seq<byte>
    requires ToTerminator(s) && m <= |Seen(s)|
  {
    AfterStep(s, m);
    Done(lead, s, m, key) + Front(After(s, m))
  }

  // ----- one element

  lemma BodyTailHeld(chain: seq<Mut>, d: Doc, fs: seq<Frame>, a: seq<byte>, t: seq<byte>)
    requires ToTerminator(t) && InSync(chain, d, fs, a + Front(t))
    ensures var pos := COOKIE + BodyPos(fs, 0, |a|);
      pos + |t| <= d.buf.Length && d.buf[..][pos..pos + |t|] == t
  {
    hide InSync, Offsets, ReadU32le, U32le;
    var body := a + Front(t);
    BodyHeld(chain, d, fs, body);
    var base := COOKIE + Offsets(fs, 0)[|fs|];
    Slices(d.buf[..], base, base + |body| + 5, 4 + |a|, |body| + 5);
    assert (U32le(|body| + 5) + body + [0])[4 + |a|..] == Front(t) + [0] == t;
  }

  /** With a new key for element `m` the reader goes on as before. */
  lemma StepRecognised(s: seq<byte>, m: nat, key: seq<byte>)
    requires ToTerminator(s) && m < |Seen(s)| && 0 !in key
    requires ToTerminator(After(s, m)) && ElementAt(After(s, m)).Elem?
    requires |WithKey(After(s, m), key)| <= INT32_MAX
    ensures var t, t', e := After(s, m), WithKey(After(s, m), key), EncodeElement(Seen(s)[m].(key := key));
      && |t| > 2 && ElementAt(t).keylen == KeyLen(t)
      && ToTerminator(t') && ElementAt(t') == Elem(|key|) && FirstSize(t') == |e|
      && t'[|e|..] == After(s, m + 1) && t' == e + After(s, m + 1)
  {
    hide ElementAt, KeyLen, FirstSize, First, EncodeElement, Seen, After, WithKey;
    var t := After(s, m);
    AfterStep(s, m);
    FirstKeylen(t);
    WithKeyRecognised(t, key);
    WithKeyBytes(t, key);
  }

  /** A new key for element `m`, in bytes. */
  lemma StepBytes(lead: seq<byte>, s: seq<byte>, m: nat, key: seq<byte>)
    requires ToTerminator(s) && m < |Seen(s)| && ToTerminator(After(s, m)) && ElementAt(After(s, m)).Elem?
    ensures var t, t', a := After(s, m), WithKey(After(s, m), key), Done(lead, s, m, key);
      && LabelledBody(lead, s, m, key) == a + Front(t)
      && |a| + 1 + KeyLen(t) <= |a + Front(t)|
      && Splice(a + Front(t), |a| + 1, KeyLen(t), key) == a + Front(t') == LabelledBody(lead, s, m + 1, key)
      && |Done(lead, s, m + 1, key)| == |a| + |EncodeElement(Seen(s)[m].(key := key))|
  {
    hide ElementAt, KeyLen, FirstSize, First, EncodeElement, EncodeList, Seen, After, Labelled, Splice, Front;
    var t, a := After(s, m), Done(lead, s, m, key);
    AfterStep(s, m);
    AfterStep(s, m + 1);
    FirstKeylen(t);
    WithKeyBytes(t, key);
    LabelledSnoc(Seen(s), m, key);
    var e := EncodeElement(Seen(s)[m].(key := key));
    assert Done(lead, s, m + 1, key) == a + e by {
      Associate(lead, EncodeList(Labelled(Seen(s)[..m], key)), e);
    }
    StepShape(a, t, KeyLen(t), key, e, After(s, m + 1));
  }

  lemma StepShape(a: seq<byte>, t: seq<byte>, keylen: nat, key: seq<byte>, e: seq<byte>, rest: seq<byte>)
    requires keylen + 2 <= |t| && t[keylen + 1] == 0 && 0 < |rest|
    requires [t[0]] + key + [0] + t[keylen + 2..] == e + rest
    ensures Splice(a + Front(t), |a| + 1, keylen, key) == a + Front(e + rest)
    ensures a + Front(e + rest) == (a + e) + Front(rest)
  {
    var t' := [t[0]] + key + [0] + t[keylen + 2..];
    assert t == [t[0]] + t[1..keylen + 1] + [0] + t[keylen + 2..];
    assert Front(t') == [t[0]] + key + Front(t)[keylen + 1..];
  }

  /** In the middle of relabelling: `m` elements are done, and `cur` is what the reader makes of the rest. */
  ghost predicate Relabelling(
      cur: Cursor, chain: seq<Mut>, d: Doc, fs: seq<Frame>, lead: seq<byte>, s: seq<byte>, m: nat, key: seq<byte>)
    requires ToTerminator(s) && m <= |Seen(s)|
    reads chain, d, d.buf, d.empty
  {
    && InSync(chain, d, fs, LabelledBody(lead, s, m, key))
    && cur.buf == d.buf
    && StandsAt(d.buf[..], cur.it, COOKIE + BodyPos(fs, 0, |Done(lead, s, m, key)|), After(s, m))
  }

  /** How the reader stops: at the end, with an error, or with an abort. */
  function StopsWith(s: seq<byte>): Parsed
    requires ToTerminator(s)
  {
    SeenBytes(s);
    ElementAt(Unread(s))
  }

  /** The loop goes on exactly as long as there are recognised elements. */
  lemma GoesOn(
      cur: Cursor, chain: seq<Mut>, d: Doc, fs: seq<Frame>, lead: seq<byte>, s: seq<byte>, m: nat, key: seq<byte>)
    requires ToTerminator(s) && m <= |Seen(s)| && Relabelling(cur, chain, d, fs, lead, s, m, key)
    ensures Stop(cur.it) <==> m == |Seen(s)|
    ensures cur.it.Aborted? ==> m == |Seen(s)|
    ensures m == |Seen(s)| ==> (cur.it.Aborted? <==> StopsWith(s).Aborts?)
  {
    hide InSync, ElementAt, First, FirstSize, Seen, Unread, EncodeList, IteratorAt;
    AfterStep(s, m);
    StandsThere(d.buf[..], COOKIE + BodyPos(fs, 0, |Done(lead, s, m, key)|), After(s, m));
  }

  /** One element: set its key and step to the next one; `None` when the key could not be set. */
  method RelabelOne(
      mut: Mut, cur: Cursor, idx: uint32,
      ghost chain: seq<Mut>, ghost d: Doc, ghost fs: seq<Frame>,
      ghost lead: seq<byte>, ghost s: seq<byte>, ghost m: nat)
    returns (r: Option<Cursor>)
    requires ToTerminator(s) && m < |Seen(s)| && |chain| == |fs| + 1 && mut == chain[|fs|]
    requires Relabelling(cur, chain, d, fs, lead, s, m, Spell(idx))
    modifies chain, d`buf, d.buf
    ensures d.buf == old(d.buf) || (fresh(d.buf) && old(d.buf)[..] == old(d.buf[..]))
    ensures r.None? ==> InSync(chain, d, fs, LabelledBody(lead, s, m, Spell(idx))) && d.buf == old(d.buf)
    ensures r.Some? ==> Relabelling(r.value, chain, d, fs, lead, s, m + 1, Spell(idx))
    ensures |LabelledBody(lead, s, m + 1, Spell(idx))| <= |LabelledBody(lead, s, m, Spell(idx))| + 10
    ensures WrapSize(fs, |LabelledBody(lead, s, m, Spell(idx))|) + 10 <= old(d.Capacity()) ==>
      r.Some? && d.buf == old(d.buf)
  {
    hide InSync, WrapSize, Splice, Offsets, ElementAt, First, FirstSize, Seen, Unread, EncodeList, IteratorAt, Spell,
      After, Done, LabelledBody, Front, WithKey, KeyLen, Chop, Next, EncodeElement, Labelled;
    ghost var t := After(s, m);
    Uint32Length(idx);
    ChopKeeps(Spell(idx));
    AfterStep(s, m);
    StepAhead(cur, chain, d, fs, lead, s, m, Spell(idx));
    var key := U32String(idx);
    var pos, done := SetKeyBytes(mut, cur, key, chain, d, fs, LabelledBody(lead, s, m, key), |Done(lead, s, m, key)|);
    if !done {
      return None;
    }
    StepTaken(pos, chain, d, fs, lead, s, m, key);
    r := Some(Cursor(pos.buf, Next(pos.buf[..], pos.it)));
  }

  /** What a step knows before it sets the key. */
  lemma StepAhead(
      cur: Cursor, chain: seq<Mut>, d: Doc, fs: seq<Frame>, lead: seq<byte>, s: seq<byte>, m: nat, key: seq<byte>)
    requires ToTerminator(s) && m < |Seen(s)| && 0 !in key && |key| <= 10
    requires Relabelling(cur, chain, d, fs, lead, s, m, key)
    ensures ToTerminator(After(s, m)) && ElementAt(After(s, m)).Elem? && |After(s, m)| > 2
    ensures cur.it.At? && cur.it.keylen == KeyLen(After(s, m)) && cur.it.rlen == |After(s, m)|
    ensures cur.it.pos == COOKIE + BodyPos(fs, 0, |Done(lead, s, m, key)|)
    ensures var rel, body := |Done(lead, s, m, key)|, LabelledBody(lead, s, m, key);
      && rel + 1 + cur.it.keylen <= |body| && cur.it.rlen == |body| - rel + 1
      && LabelledBody(lead, s, m, key) == Done(lead, s, m, key) + Front(After(s, m))
      && |LabelledBody(lead, s, m + 1, key)| == |body| - cur.it.keylen + |key|
      && WrapSize(fs, |body| - cur.it.keylen + |key|) <= WrapSize(fs, |body|) + 10
  {
    hide InSync, WrapSize, Splice, Offsets, ElementAt, First, FirstSize, Seen, Unread, EncodeList, IteratorAt,
      After, KeyLen, EncodeElement, Labelled, Done, Front, WithKey;
    var t := After(s, m);
    AfterStep(s, m);
    StandsThere(d.buf[..], COOKIE + BodyPos(fs, 0, |Done(lead, s, m, key)|), t);
    FirstKeylen(t);
    StepBytes(lead, s, m, key);
    SizesShift(fs, |LabelledBody(lead, s, m + 1, key)|, |LabelledBody(lead, s, m, key)|);
  }

  /** After the key is set, the next iterator stands at what follows the element. */
  lemma StepTaken(
      pos: Cursor, chain: seq<Mut>, d: Doc, fs: seq<Frame>, lead: seq<byte>, s: seq<byte>, m: nat, key: seq<byte>)
    requires ToTerminator(s) && m < |Seen(s)| && 0 !in key
    requires ToTerminator(After(s, m)) && ElementAt(After(s, m)).Elem? && |After(s, m)| > 2
    requires var a, t := Done(lead, s, m, key), After(s, m);
      && |a| + 1 + KeyLen(t) <= |a + Front(t)|
      && InSync(chain, d, fs, Splice(a + Front(t), |a| + 1, KeyLen(t), key))
      && pos == Cursor(d.buf, At(COOKIE + BodyPos(fs, 0, |a|), |key|, |t| - KeyLen(t) + |key|))
    ensures Produced(d.buf[..], pos.it) && !Stop(pos.it)
    ensures Relabelling(Cursor(pos.buf, Next(pos.buf[..], pos.it)), chain, d, fs, lead, s, m + 1, key)
  {
    hide InSync, WrapSize, Splice, Offsets, ElementAt, First, FirstSize, Seen, Unread, EncodeList, IteratorAt,
      After, KeyLen, EncodeElement, Labelled, Done, Front, WithKey, Next, LabelledBody, StandsAt, Produced,
      BodyPos, ToTerminator, Wrap;
    var a, t, t' := Done(lead, s, m, key), After(s, m), WithKey(After(s, m), key);
    assert |t'| <= INT32_MAX by {
      BodyHeld(chain, d, fs, Splice(a + Front(t), |a| + 1, KeyLen(t), key));
    }
    StepRecognised(s, m, key);
    StepBytes(lead, s, m, key);
    BodyTailHeld(chain, d, fs, a, t');
    NextStands(d.buf[..], COOKIE + BodyPos(fs, 0, |a|), t');
    BodyPosShift(fs, |a|, FirstSize(t'));
  }

  lemma BodyPosShift(fs: seq<Frame>, rel: nat, n: nat)
    ensures BodyPos(fs, 0, rel) + n == BodyPos(fs, 0, rel + n)
  {
  }

  // ----- the whole loop

  /** From element `k` on, the first `m` elements that the reader recognises have the given key. */
  ghost predicate RelabelledFirst(
      chain: seq<Mut>, d: Doc, es: seq<Element>, path: seq<nat>, k: nat, m: nat, key: seq<byte>)
    requires ValidPath(es, path) && k <= |Inner(es, path)|
    requires ToTerminator(Tail(es, path, k)) && m <= |Seen(Tail(es, path, k))|
    reads chain, d, d.buf, d.empty
  {
    && ChildOffsets(chain, es, path)
    && InSync(chain, d, FramesOf(es, path),
         LabelledBody(EncodeList(Inner(es, path)[..k]), Tail(es, path, k), m, key))
  }

  /** The bytes from element `k` on when all recognised elements are relabelled. */
  function LabelledTail(s: seq<byte>, key: seq<byte>): seq<byte>
    requires ToTerminator(s)
  {
    EncodeList(Labelled(Seen(s), key)) + Unread(s)
  }

  /** With every recognised element relabelled, the body is what came before and the relabelled bytes. */
  lemma AllLabelled(lead: seq<byte>, s: seq<byte>, key: seq<byte>)
    requires ToTerminator(s)
    ensures 0 < |LabelledTail(s, key)| && LabelledTail(s, key)[|LabelledTail(s, key)| - 1] == 0
    ensures LabelledBody(lead, s, |Seen(s)|, key) == lead + Front(LabelledTail(s, key))
  {
    hide ElementAt, Seen, Unread, EncodeList, Labelled, After;
    var a, t := EncodeList(Labelled(Seen(s), key)), Unread(s);
    SeenBytes(s);
    AfterStep(s, |Seen(s)|);
    assert Seen(s)[..|Seen(s)|] == Seen(s);
    assert Front(a + t) == a + Front(t);
    Associate(lead, a, Front(t));
  }

  /** With none relabelled, it is the body. */
  lemma NoneLabelled(lead: seq<byte>, s: seq<byte>, key: seq<byte>)
    requires ToTerminator(s)
    ensures LabelledBody(lead, s, 0, key) == lead + Front(s) && Done(lead, s, 0, key) == lead && After(s, 0) == s
  {
    hide ElementAt, Seen, Unread, EncodeList, After;
    AfterStep(s, 0);
    assert Labelled(Seen(s)[..0], key) == [];
    EmptyList();
    assert lead + [] == lead;
  }

  /** Before the loop. */
  lemma RelabelReady(pos: Cursor, chain: seq<Mut>, d: Doc, es: seq<Element>, path: seq<nat>, k: nat, key: seq<byte>)
    requires Tracks(chain, d, es, path) && k <= |Inner(es, path)|
    requires pos == CursorAt(d.buf, es, path, k) && Produced(d.buf[..], pos.it)
    ensures |FramesOf(es, path)| == |path| && |chain| == |path| + 1 && chain[|path|].data.at <= pos.it.pos
    ensures ToTerminator(Tail(es, path, k)) && ChildOffsets(chain, es, path)
    ensures var fs, lead, s := FramesOf(es, path), EncodeList(Inner(es, path)[..k]), Tail(es, path, k);
      && Relabelling(pos, chain, d, fs, lead, s, 0, key)
      && WrapSize(fs, |LabelledBody(lead, s, 0, key)|) == |EncodeDoc(es)| <= d.buf.Length
      && InSync(chain, d, fs, LabelledBody(lead, s, 0, key))
      && pos.it.At? && pos.it.pos == chain[|path|].data.at + 4 + |lead|
      && pos.it.pos == COOKIE + BodyPos(fs, 0, |lead|)
  {
    hide ElementAt, Seen, Unread, EncodeList, After, WrapSize, Offsets, FramesOf, EncodeDoc, LabelledBody, Done;
    var fs, body := FramesOf(es, path), EncodeList(Inner(es, path));
    var lead, s := EncodeList(Inner(es, path)[..k]), Tail(es, path, k);
    TailHeld(chain, d, es, path, k);
    CursorFacts(chain, d, es, path, k);
    NoneLabelled(lead, s, key);
    assert lead + Front(s) == body by {
      assert (body + [0])[..|body|] == body;
    }
    SplicedSize(es, path, 0, 0);
  }

  lemma SameCapacity(chain: seq<Mut>, d: Doc, fs: seq<Frame>, body: seq<byte>)
    requires InSync(chain, d, fs, body)
    ensures d.buf.Length >= 9 && d.Capacity() == d.buf.Length - COOKIE && |chain| == |fs| + 1
  {
    hide Wrap, Offsets, ReadU32le;
  }

  /** `_bson_recover_iterator`: what the reader makes of the bytes at an offset of the innermost document. */
  method RecoverIterator(
      mut: Mut, offset: nat,
      ghost chain: seq<Mut>, ghost d: Doc, ghost fs: seq<Frame>, ghost a: seq<byte>, ghost t: seq<byte>)
    returns (r: Cursor)
    requires 0 < |t| && InSync(chain, d, fs, a + Front(t)) && |chain| == |fs| + 1 && mut == chain[|fs|]
    requires t[|t| - 1] == 0 && offset == 4 + |a|
    ensures r.buf == d.buf && StandsAt(d.buf[..], r.it, COOKIE + BodyPos(fs, 0, |a|), t)
  {
    hide InSync, Offsets, ReadU32le, IteratorAt;
    BodyHeld(chain, d, fs, a + Front(t));
    BodyTailHeld(chain, d, fs, a, t);
    StandsThere(d.buf[..], COOKIE + BodyPos(fs, 0, |a|), t);
    var len := ReadU32le(mut.data.buf[..][mut.data.at..]);
    r := Cursor(mut.data.buf, IteratorAt(mut.data.buf[..], mut.data.at + offset, len - offset));
  }

  // ----- readable elements

  predicate ReadableFrom(inner: seq<Element>, k: nat) {
    forall i :: k <= i < |inner| ==> ReadableElement(inner[i])
  }

  /** Elements `k..m` have the given key, everything else is as before. */
  function Relabelled(inner: seq<Element>, k: nat, m: nat, key: seq<byte>): (r: seq<Element>)
    requires k <= m <= |inner|
    ensures |r| == |inner|
  {
    inner[..k] + Labelled(inner[k..m], key) + inner[m..]
  }

  lemma ReadableTail(inner: seq<Element>, k: nat)
    requires k <= |inner| && ReadableFrom(inner, k) && ToTerminator(EncodeList(inner[k..]) + [0])
    ensures var s := EncodeList(inner[k..]) + [0];
      Seen(s) == FlatList(inner[k..]) && Unread(s) == [0] && StopsWith(s) == Terminator
  {
    hide ReadableElement, EncodeList, FlatList, ElementAt, Seen, Unread;
    SeenReadable(inner[k..], [0]);
    SeenTerminator();
    LoneTerminator();
  }

  lemma {:induction false} FlatEncodes(es: seq<Element>)
    ensures EncodeList(FlatList(es)) == EncodeList(es)
  {
    hide EncodeElement;
    if es != [] {
      FlatEncodes(es[1..]);
      assert FlatList(es)[1..] == FlatList(es[1..]);
      FlatElement(es[0]);
    }
  }

  lemma FlatElement(e: Element)
    ensures EncodeElement(Flat(e)) == EncodeElement(e)
  {
  }

  /** On readable elements, relabelling bytes is relabelling elements. */
  lemma RelabelledBytes(inner: seq<Element>, k: nat, m: nat, key: seq<byte>)
    requires k + m <= |inner| && ReadableFrom(inner, k) && ToTerminator(EncodeList(inner[k..]) + [0])
    requires Seen(EncodeList(inner[k..]) + [0]) == FlatList(inner[k..])
    requires Unread(EncodeList(inner[k..]) + [0]) == [0]
    ensures EncodeList(Relabelled(inner, k, k + m, key))
         == LabelledBody(EncodeList(inner[..k]), EncodeList(inner[k..]) + [0], m, key)
  {
    hide ReadableElement, EncodeList, ElementAt, Seen, Unread, Flat;
    var s, es := EncodeList(inner[k..]) + [0], inner[k..];
    assert FlatList(es)[..m] == FlatList(es[..m]) && FlatList(es)[m..] == FlatList(es[m..]);
    assert Labelled(FlatList(es[..m]), key) == FlatList(Labelled(es[..m], key)) by {
      LabelledFlat(es[..m], key);
    }
    FlatEncodes(Labelled(es[..m], key));
    FlatEncodes(es[m..]);
    assert es[..m] == inner[k..k + m] && es[m..] == inner[k + m..];
    EncodeListAppend(inner[..k] + Labelled(es[..m], key), es[m..]);
    EncodeListAppend(inner[..k], Labelled(es[..m], key));
    assert Front(EncodeList(es[m..]) + [0]) == EncodeList(es[m..]);
  }

  lemma LabelledFlat(es: seq<Element>, key: seq<byte>)
    ensures Labelled(FlatList(es), key) == FlatList(Labelled(es, key))
  {
    hide EncodeNode;
  }

  /** The chain tracks the tree in which elements `k..k + m` of the document at the path have the given key. */
  ghost predicate RelabelledTree(
      chain: seq<Mut>, d: Doc, es: seq<Element>, path: seq<nat>, k: nat, m: nat, key: seq<byte>)
    requires ValidPath(es, path)
    reads chain, d, d.buf, d.empty
  {
    k + m <= |Inner(es, path)| &&
    var inner' := Relabelled(Inner(es, path), k, k + m, key);
    var es' := Update(es, path, inner');
    Tracks(chain, d, es', path) && Inner(es', path) == inner'
  }

  lemma RelabelledIsTree(chain: seq<Mut>, d: Doc, es: seq<Element>, path: seq<nat>, k: nat, m: nat, key: seq<byte>)
    requires ValidPath(es, path) && k <= |Inner(es, path)| && ReadableFrom(Inner(es, path), k)
    requires ToTerminator(Tail(es, path, k)) && m <= |Seen(Tail(es, path, k))|
    requires RelabelledFirst(chain, d, es, path, k, m, key)
    ensures |Seen(Tail(es, path, k))| == |Inner(es, path)| - k && StopsWith(Tail(es, path, k)).Terminator?
    ensures RelabelledTree(chain, d, es, path, k, m, key)
  {
    hide ReadableFrom, EncodeList, InSync, ElementAt, Seen, Unread, FramesOf, Relabelled, LabelledBody;
    var inner := Inner(es, path);
    ReadableTail(inner, k);
    RelabelledBytes(inner, k, m, key);
    TracksUpdated(chain, d, es, path, Relabelled(inner, k, k + m, key));
    UpdateKeepsFrames(es, path, Relabelled(inner, k, k + m, key));
  }

  /** `r` refers to element `k` of the relabelled tree. */
  ghost predicate RecoveredAt(r: Cursor, d: Doc, es: seq<Element>, path: seq<nat>, k: nat, m: nat, key: seq<byte>)
    requires ValidPath(es, path)
    reads d
  {
    k + m <= |Inner(es, path)| &&
    var es' := Update(es, path, Relabelled(Inner(es, path), k, k + m, key));
    ValidPath(es', path) && k <= |Inner(es', path)| && r == CursorAt(d.buf, es', path, k)
  }

  /** Where relabelling of readable elements ends, the recovered iterator is that of element `k`. */
  lemma RecoveredCursor(
      r: Cursor, chain: seq<Mut>, d: Doc, es: seq<Element>, path: seq<nat>, k: nat, m: nat, key: seq<byte>)
    requires ValidPath(es, path) && k <= |Inner(es, path)| && ReadableFrom(Inner(es, path), k) && 0 !in key
    requires RelabelledTree(chain, d, es, path, k, m, key) && k + m == |Inner(es, path)|
    requires ToTerminator(Tail(es, path, k)) && r.buf == d.buf
    requires StandsAt(d.buf[..], r.it, CursorAt(d.buf, es, path, k).it.pos, LabelledTail(Tail(es, path, k), key))
    ensures RecoveredAt(r, d, es, path, k, m, key)
  {
    hide ReadableElement, EncodeList, InSync, ElementAt, Seen, Unread, FramesOf, Base, IterFor, IteratorAt, Holds,
      EncodeDoc, Labelled, LabelledTail, Tracks, StandsAt, Relabelled;
    var inner := Inner(es, path);
    var inner' := Relabelled(inner, k, |inner|, key);
    UpdateKeepsBase(es, path, inner');
    InnerHeld(chain, d, Update(es, path, inner'), path);
    RelabelledReadable(inner, k, key);
    LabelledTailIs(inner, k, key);
    RecoveredIterator(r.it, d.buf[..], Base(es, path), inner, inner', k, LabelledTail(Tail(es, path, k), key));
  }

  lemma RecoveredIterator(
      it: Iterator, mem: seq<byte>, base: nat, inner: seq<Element>, inner': seq<Element>, k: nat, t: seq<byte>)
    requires Holds(mem, base, inner') && |EncodeDoc(inner')| <= INT32_MAX && k <= |inner| && k <= |inner'|
    requires inner'[..k] == inner[..k] && (k < |inner'| ==> ReadableElement(inner'[k]))
    requires StandsAt(mem, it, IterFor(inner, k, base).pos, t) && t == EncodeList(inner'[k..]) + [0]
    ensures it == IterFor(inner', k, base)
  {
    hide EncodeList, ElementAt, IteratorAt, Holds, ReadableElement;
    IteratorAtBoundary(mem, base, inner', k);
    EncodeListSplit(inner', k);
    ElemOffsetsAscend(inner', k, |inner'|);
  }

  lemma RelabelledReadable(inner: seq<Element>, k: nat, key: seq<byte>)
    requires k <= |inner| && ReadableFrom(inner, k) && 0 !in key
    ensures Relabelled(inner, k, |inner|, key)[..k] == inner[..k]
    ensures k < |inner| ==> ReadableElement(Relabelled(inner, k, |inner|, key)[k])
  {
    hide Delimited;
    if k < |inner| {
      assert Relabelled(inner, k, |inner|, key)[k] == inner[k].(key := key);
    }
  }

  lemma LabelledTailIs(inner: seq<Element>, k: nat, key: seq<byte>)
    requires k <= |inner| && ReadableFrom(inner, k) && ToTerminator(EncodeList(inner[k..]) + [0])
    ensures LabelledTail(EncodeList(inner[k..]) + [0], key)
         == EncodeList(Relabelled(inner, k, |inner|, key)[k..]) + [0]
  {
    hide ReadableFrom, EncodeList, ElementAt, Seen, Unread, FlatList, Labelled;
    ReadableTail(inner, k);
    LabelledFlat(inner[k..], key);
    FlatEncodes(Labelled(inner[k..], key));
    assert inner[|inner|..] == [] && inner[k..|inner|] == inner[k..];
    assert Relabelled(inner, k, |inner|, key)[k..] == Labelled(inner[k..], key);
  }

  /** The loop. It is left normally when the reader stops at the end or with an error. */
  method RelabelLoop(
      mut: Mut, pos: Cursor, idx: uint32,
      ghost chain: seq<Mut>, ghost d: Doc, ghost fs: seq<Frame>, ghost lead: seq<byte>, ghost s: seq<byte>)
    returns (ok: bool, ghost m: nat)
    requires ToTerminator(s) && |chain| == |fs| + 1 && mut == chain[|fs|]
    requires Relabelling(pos, chain, d, fs, lead, s, 0, Spell(idx))
    modifies chain, d`buf, d.buf
    ensures m <= |Seen(s)| && InSync(chain, d, fs, LabelledBody(lead, s, m, Spell(idx)))
    ensures ok <==> m == |Seen(s)| && !StopsWith(s).Aborts?
    ensures WrapSize(fs, |LabelledBody(lead, s, 0, Spell(idx))|) + 10 * |Seen(s)| <= old(d.buf.Length) - COOKIE ==>
      m == |Seen(s)|
  {
    hide InSync, ElementAt, Seen, Unread, EncodeList, LabelledBody, Done, WrapSize, Spell, StandsAt, After, Offsets,
      StopsWith;
    var cur := pos;
    m := 0;
    GoesOn(cur, chain, d, fs, lead, s, m, Spell(idx));
    ghost var size := WrapSize(fs, |LabelledBody(lead, s, 0, Spell(idx))|);
    ghost var roomy := size + 10 * |Seen(s)| <= d.buf.Length - COOKIE;
    while !Stop(cur.it)
      invariant m <= |Seen(s)| && Relabelling(cur, chain, d, fs, lead, s, m, Spell(idx))
      invariant Stop(cur.it) <==> m == |Seen(s)|
      invariant m == |Seen(s)| ==> (cur.it.Aborted? <==> StopsWith(s).Aborts?)
      invariant d.buf == old(d.buf) || fresh(d.buf)
      invariant roomy ==> d.buf == old(d.buf)
      invariant WrapSize(fs, |LabelledBody(lead, s, m, Spell(idx))|) <= size + 10 * m
      decreases |Seen(s)| - m
    {
      SameCapacity(chain, d, fs, LabelledBody(lead, s, m, Spell(idx)));
      var next := RelabelOne(mut, cur, idx, chain, d, fs, lead, s, m);
      if next.None? {
        return false, m;
      }
      SizesShift(fs, |LabelledBody(lead, s, m + 1, Spell(idx))|, |LabelledBody(lead, s, m, Spell(idx))|);
      cur := next.value;
      m := m + 1;
      GoesOn(cur, chain, d, fs, lead, s, m, Spell(idx));
    }
    ok := !cur.it.Aborted?;
  }

  /** What the loop leaves, in terms of the tree. */
  lemma RelabelLeaves(chain: seq<Mut>, d: Doc, es: seq<Element>, path: seq<nat>, k: nat, m: nat, key: seq<byte>)
    requires ValidPath(es, path) && k <= |Inner(es, path)| && ChildOffsets(chain, es, path)
    requires ToTerminator(Tail(es, path, k)) && m <= |Seen(Tail(es, path, k))|
    requires InSync(chain, d, FramesOf(es, path),
               LabelledBody(EncodeList(Inner(es, path)[..k]), Tail(es, path, k), m, key))
    ensures RelabelledFirst(chain, d, es, path, k, m, key)
    ensures ReadableFrom(Inner(es, path), k) ==>
      && |Seen(Tail(es, path, k))| == |Inner(es, path)| - k && StopsWith(Tail(es, path, k)).Terminator?
      && RelabelledTree(chain, d, es, path, k, m, key)
  {
    hide ReadableFrom, InSync, ElementAt, Seen, FramesOf, RelabelledTree, LabelledBody, Tail, EncodeList, StopsWith;
    if ReadableFrom(Inner(es, path), k) {
      RelabelledIsTree(chain, d, es, path, k, m, key);
    }
  }

  /**
   `bson_relabel_array_elements_at`, as written: from `k` on, every element that the
   reader recognises gets the same key, the spelling of `idx`, and the loop ends where the
   reader stops. Then it returns the iterator that the reader makes at the old offset: if
   the reader stopped with an error, as behind a regular expression, without a sign that
   later elements kept their keys. It halts exactly when a key could not be set, after
   which it steps on from the past-the-end iterator, or the reader aborts.
   */
  method RelabelAt(
      mut: Mut, pos: Cursor, idx: uint32,
      ghost chain: seq<Mut>, ghost d: Doc, ghost es: seq<Element>, ghost path: seq<nat>, ghost k: nat)
    returns (r: Option<Cursor>, ghost m: nat)
    requires Tracks(chain, d, es, path) && mut == chain[|path|]
    requires k <= |Inner(es, path)| && pos == CursorAt(d.buf, es, path, k) && Produced(d.buf[..], pos.it)
    modifies chain, d`buf, d.buf
    ensures ToTerminator(Tail(es, path, k)) && m <= |Seen(Tail(es, path, k))|
    ensures RelabelledFirst(chain, d, es, path, k, m, Spell(idx))
    ensures var s := Tail(es, path, k);
      r.Some? <==> m == |Seen(s)| && !StopsWith(s).Aborts?
    ensures r.Some? ==>
      && r.value.buf == d.buf
      && StandsAt(d.buf[..], r.value.it, pos.it.pos, LabelledTail(Tail(es, path, k), Spell(idx)))
    ensures |EncodeDoc(es)| + 10 * |Seen(Tail(es, path, k))| <= old(d.Capacity()) ==> m == |Seen(Tail(es, path, k))|
    ensures ReadableFrom(Inner(es, path), k) ==>
      && |Seen(Tail(es, path, k))| == |Inner(es, path)| - k && StopsWith(Tail(es, path, k)).Terminator?
      && RelabelledTree(chain, d, es, path, k, m, Spell(idx))
      && (r.Some? ==> RecoveredAt(r.value, d, es, path, k, m, Spell(idx)))
  {
    hide InSync, ElementAt, Seen, Unread, EncodeList, LabelledBody, Done, WrapSize, Spell, StandsAt, After, Offsets,
      StopsWith, Tail, FramesOf, ReadableFrom, LabelledTail, RelabelledFirst, RelabelledTree, RecoveredAt, IterFor,
      Base, EncodeDoc, Produced, BodyPos, Front, Update, Relabelling;
    ghost var fs, lead, s := FramesOf(es, path), EncodeList(Inner(es, path)[..k]), Tail(es, path, k);
    RelabelReady(pos, chain, d, es, path, k, Spell(idx));
    SameCapacity(chain, d, fs, LabelledBody(lead, s, 0, Spell(idx)));
    var itOffset := pos.it.pos - mut.data.at;
    var ok;
    ok, m := RelabelLoop(mut, pos, idx, chain, d, fs, lead, s);
    RelabelLeaves(chain, d, es, path, k, m, Spell(idx));
    if !ok {
      return None, m;
    }
    AllLabelled(lead, s, Spell(idx));
    var at := RecoverIterator(mut, itOffset, chain, d, fs, lead, LabelledTail(s, Spell(idx)));
    r := Some(at);
    Uint32Length(idx);
    if ReadableFrom(Inner(es, path), k) {
      RecoveredCursor(at, chain, d, es, path, k, m, Spell(idx));
    }
  }

  // ----- what relabelling is meant to do

  /** Element `k + n` is labelled `idx + n`. */
  ghost predicate Numbered(inner: seq<Element>, k: nat, idx: nat) {
    forall i :: k <= i < |inner| ==> inner[i].key == Spell(idx + i - k)
  }

  /** The relabelled keys count up from `idx` exactly when there is at most one of them. */
  lemma RelabelCountsIffSingle(inner: seq<Element>, k: nat, idx: nat)
    requires k <= |inner|
    ensures Numbered(Relabelled(inner, k, |inner|, Spell(idx)), k, idx) <==> |inner| - k <= 1
  {
    hide Spell;
    var r := Relabelled(inner, k, |inner|, Spell(idx));
    if |inner| - k > 1 && Numbered(r, k, idx) {
      assert r[k + 1].key == Spell(idx) == Spell(idx + 1);
      SpellingInjective(idx, idx + 1);
    }
  }

  /**
   An inserted regular expression ends the relabelling: the elements up to it are the
   recognised ones, and the reader stops with an error at its fill bytes, so that every
   element behind it keeps its key.
   */
  lemma RegexStopsRelabelling(inner: seq<Element>, k: nat, j: nat, key: seq<byte>, v: ValueRef)
    requires k <= j < |inner| && |EncodeDoc(inner)| <= INT32_MAX
    requires forall i :: k <= i < j ==> ReadableElement(inner[i])
    requires v.Regex? && NulFree(v) && inner[j] == NewElement(key, v)
    ensures var s := EncodeList(inner[k..]) + [0];
      && ToTerminator(s)
      && Seen(s) == FlatList(inner[k..j]) + [Element(Chop(key), Leaf(0xB, Payload(v)))]
      && Unread(s) == Repeat(FILL, 3) + EncodeList(inner[j + 1..]) + [0]
      && StopsWith(s).Malformed?
  {
    hide EncodeList, EncodeElement, EncodeDoc, ElementAt, Seen, Unread, ReadableElement, FlatList, NewElement;
    var rest := EncodeList(inner[j + 1..]) + [0];
    var t := EncodeList(inner[j..]) + [0];
    EncodeListSplit(inner, k);
    EncodeListPickTail(inner, j);
    EncodeListAppend(inner[k..j], inner[j..]);
    assert inner[k..] == inner[k..j] + inner[j..];
    RegexSeen(key, v, rest);
    Associate(EncodeElement(inner[j]), EncodeList(inner[j + 1..]), [0]);
    SeenReadable(inner[k..j], t);
    Associate(EncodeList(inner[k..j]), EncodeList(inner[j..]), [0]);
    assert Repeat(FILL, 3) + rest == Repeat(FILL, 3) + EncodeList(inner[j + 1..]) + [0];
    FillMalformed(Repeat(FILL, 3) + rest);
  }

  /** Of an inserted regular expression the reader sees everything but the fill bytes, and those it rejects. */
  lemma RegexSeen(key: seq<byte>, v: ValueRef, rest: seq<byte>)
    requires v.Regex? && NulFree(v) && 0 < |rest| && rest[|rest| - 1] == 0
    requires |EncodeElement(NewElement(key, v)) + rest| <= INT32_MAX
    ensures var s := EncodeElement(NewElement(key, v)) + rest;
      && ToTerminator(s) && ToTerminator(Repeat(FILL, 3) + rest)
      && Seen(s) == [Element(Chop(key), Leaf(0xB, Payload(v)))] && Unread(s) == Repeat(FILL, 3) + rest
  {
    hide Payload, WellFormed, Delimited, Chop, ElementAt, KeyLen, ValSize, First, FirstSize, EncodeElement, NewElement,
      Seen, Unread, Readable;
    var p, s := Payload(v), EncodeElement(NewElement(key, v)) + rest;
    RegexElementBytes(key, v);
    assert s == [0xB] + Chop(key) + [0] + p + (Repeat(FILL, 3) + rest);
    RegexDelimited(v);
    ElementRecognised(0xB, Chop(key), p, Repeat(FILL, 3) + rest);
    MeasuredFirst(0xB, Chop(key), p, Repeat(FILL, 3) + rest, |p|);
    assert p[..|p|] == p && p[|p|..] + (Repeat(FILL, 3) + rest) == Repeat(FILL, 3) + rest;
    FillMalformed(Repeat(FILL, 3) + rest);
    SeenStep(s);
    SeenStep(Repeat(FILL, 3) + rest);
  }

  lemma RegexElementBytes(key: seq<byte>, v: ValueRef)
    requires v.Regex? && NulFree(v)
    ensures EncodeElement(NewElement(key, v)) == [0xB] + Chop(key) + [0] + Payload(v) + Repeat(FILL, 3)
  {
    hide Payload, Chop;
    WrittenIsPadded(v);
    assert [0xB] + Chop(key) + [0] + (Payload(v) + Repeat(FILL, 3))
        == [0xB] + Chop(key) + [0] + Payload(v) + Repeat(FILL, 3);
  }

  lemma RegexDelimited(v: ValueRef)
    requires v.Regex? && NulFree(v) && |Payload(v)| < INT32_MAX
    ensures Delimited(0xB, Payload(v))
  {
    hide Delimited, Payload;
    KindsDelimited(v);
  }
}
