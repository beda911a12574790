/**
 BSON documents as trees, and their encoding (BSON Specification version 1.1,
 non-terminals `document`, `e_list` and `element`). A path of element indices
 leads to a nested document; the bytes around that document form its frames.
 */
module Document {
  import opened Bytes
  import opened Frames

  const TAG_DOCUMENT: byte := 3
  const TAG_ARRAY: byte := 4

  /** An element value: opaque value bytes, or a document or array seen as a tree. */
  datatype Node =
    | Leaf(tag: byte, payload: seq<byte>)
    | Sub(isArray: bool, es: seq<Element>)
  {
    function Tag(): byte {
      match this
      case Leaf(tag, _) => tag
      case Sub(isArray, _) => if isArray then TAG_ARRAY else TAG_DOCUMENT
    }
  }

  datatype Element = Element(key: seq<byte>, node: Node)

  function EncodeNode(n: Node): seq<byte>
    decreases n, 2
  {
    match n
    case Leaf(_, payload) => payload
    case Sub(_, es) => EncodeDoc(es)
  }

  function EncodeElement(e: Element): seq<byte>
    decreases e, 3
  {
    [e.node.Tag()] + e.key + [0] + EncodeNode(e.node)
  }

  function EncodeList(es: seq<Element>): seq<byte>
    decreases es, 0
  {
    if es == [] then [] else EncodeElement(es[0]) + EncodeList(es[1..])
  }

  function EncodeDoc(es: seq<Element>): (b: seq<byte>)
    ensures |b| == |EncodeList(es)| + 5
    decreases es, 1
  {
    U32le(|EncodeList(es)| + 5) + EncodeList(es) + [0]
  }

  lemma {:induction false} EncodeListAppend(a: seq<Element>, b: seq<Element>)
    ensures EncodeList(a + b) == EncodeList(a) + EncodeList(b)
  {
    if a == [] {
      assert a + b == b;
    } else {
      EncodeListAppend(a[1..], b);
      assert (a + b)[0] == a[0] && (a + b)[1..] == a[1..] + b;
      Associate(EncodeElement(a[0]), EncodeList(a[1..]), EncodeList(b));
    }
  }

  lemma Associate(x: seq<byte>, y: seq<byte>, z: seq<byte>)
    ensures x + (y + z) == x + y + z
  {
  }

  lemma EncodeListSingle(e: Element)
    ensures EncodeList([e]) == EncodeElement(e)
  {
    assert [e][1..] == [];
    assert EncodeList([]) == [];
  }

  lemma EncodeListSplit(es: seq<Element>, k: nat)
    requires k <= |es|
    ensures EncodeList(es) == EncodeList(es[..k]) + EncodeList(es[k..])
  {
    hide EncodeList;
    EncodeListAppend(es[..k], es[k..]);
    assert es[..k] + es[k..] == es;
  }

  lemma EncodeListPickHead(es: seq<Element>, k: nat)
    requires k < |es|
    ensures EncodeList(es[..k + 1]) == EncodeList(es[..k]) + EncodeElement(es[k])
  {
    hide *;
    EncodeListAppend(es[..k], [es[k]]);
    EncodeListSingle(es[k]);
    assert es[..k + 1] == es[..k] + [es[k]];
  }

  lemma EncodeListPick(es: seq<Element>, k: nat)
    requires k < |es|
    ensures EncodeList(es) == EncodeList(es[..k]) + EncodeElement(es[k]) + EncodeList(es[k + 1..])
    ensures EncodeList(es[..k + 1]) == EncodeList(es[..k]) + EncodeElement(es[k])
  {
    hide *;
    EncodeListSplit(es, k + 1);
    EncodeListPickHead(es, k);
  }

  lemma EncodeListPickTail(es: seq<Element>, k: nat)
    requires k < |es|
    ensures EncodeList(es[k..]) == EncodeElement(es[k]) + EncodeList(es[k + 1..])
  {
    hide *;
    EncodeListAppend([es[k]], es[k + 1..]);
    EncodeListSingle(es[k]);
    assert es[k..] == [es[k]] + es[k + 1..];
  }

  // ----- addressing within a document

  /** Offset of element `k` from the start of its document; `k == |es|` is the terminator. */
  function ElemOffset(es: seq<Element>, k: nat): nat
    requires k <= |es|
  {
    4 + |EncodeList(es[..k])|
  }

  lemma {:induction false} ElemOffsetsAscend(es: seq<Element>, i: nat, j: nat)
    requires i <= j <= |es|
    ensures ElemOffset(es, i) + 2 * (j - i) <= ElemOffset(es, j) <= 4 + |EncodeList(es)|
    ensures ElemOffset(es, |es|) == 4 + |EncodeList(es)|
    ensures i < j ==> ElemOffset(es, i) + |EncodeElement(es[i])| <= ElemOffset(es, j)
    decreases j - i
  {
    assert es[..|es|] == es;
    if i < j {
      ElemOffsetsAscend(es, i + 1, j);
      EncodeListPick(es, i);
    } else {
      EncodeListSplit(es, j);
    }
  }

  predicate ValidPath(es: seq<Element>, path: seq<nat>) {
    path != [] ==> path[0] < |es| && es[path[0]].node.Sub? && ValidPath(es[path[0]].node.es, path[1..])
  }

  /** The elements of the document that `path` leads to. */
  function Inner(es: seq<Element>, path: seq<nat>): seq<Element>
    requires ValidPath(es, path)
  {
    if path == [] then es else Inner(es[path[0]].node.es, path[1..])
  }

  /** The tree whose document at `path` is replaced by `inner`; nothing else changes. */
  function Update(es: seq<Element>, path: seq<nat>, inner: seq<Element>): seq<Element>
    requires ValidPath(es, path)
  {
    if path == [] then inner
    else
      var e := es[path[0]];
      es[path[0] := e.(node := Sub(e.node.isArray, Update(e.node.es, path[1..], inner)))]
  }

  /** The bytes between the header of a document and the value of its element `k`. */
  function Lead(es: seq<Element>, k: nat): (b: seq<byte>)
    requires k < |es|
    ensures 4 + |b| == ElemOffset(es, k) + 2 + |es[k].key|
  {
    EncodeList(es[..k]) + [es[k].node.Tag()] + es[k].key + [0]
  }

  /** The frames around the document that `path` leads to, outermost first. */
  function FramesOf(es: seq<Element>, path: seq<nat>): (fs: seq<Frame>)
    requires ValidPath(es, path)
    ensures |fs| == |path|
  {
    if path == [] then []
    else
      var k := path[0];
      [Frame(Lead(es, k), EncodeList(es[k + 1..]) + [0])] + FramesOf(es[k].node.es, path[1..])
  }

  lemma {:induction false} FramesOfProper(es: seq<Element>, path: seq<nat>)
    requires ValidPath(es, path)
    ensures Proper(FramesOf(es, path))
  {
    if path != [] {
      FramesOfProper(es[path[0]].node.es, path[1..]);
    }
  }

  /** The encoding of a tree is the body of any of its documents within that document's frames. */
  lemma {:induction false} EncodeIsWrapped(es: seq<Element>, path: seq<nat>)
    requires ValidPath(es, path)
    ensures EncodeDoc(es) == Wrap(FramesOf(es, path), EncodeList(Inner(es, path)))
  {
    if path != [] {
      EncodeIsWrapped(es[path[0]].node.es, path[1..]);
      DocumentAround(es, path[0]);
      WrapStep(es, path);
    } else {
      assert Wrap([], EncodeList(es)) == EncodeDoc(es);
    }
  }

  lemma WrapStep(es: seq<Element>, path: seq<nat>)
    requires ValidPath(es, path) && path != []
    requires var sub := es[path[0]].node.es;
      EncodeDoc(sub) == Wrap(FramesOf(sub, path[1..]), EncodeList(Inner(sub, path[1..])))
    requires var k := path[0];
      EncodeDoc(es) == U32le(|EncodeDoc(es)|) + Lead(es, k) + EncodeDoc(es[k].node.es) + (EncodeList(es[k + 1..]) + [0])
    ensures EncodeDoc(es) == Wrap(FramesOf(es, path), EncodeList(Inner(es, path)))
  {
    hide EncodeDoc, EncodeList, Lead, U32le;
    var sub := es[path[0]].node.es;
    assert Inner(es, path) == Inner(sub, path[1..]);
    var fs, body := FramesOf(es, path), EncodeList(Inner(es, path));
    assert fs[1..] == FramesOf(sub, path[1..]);
    assert WrapSize(fs, |body|) == 4 + |fs[0].lead| + |EncodeDoc(sub)| + |fs[0].tail|;
  }

  /** A document split around the value of one of its subdocuments. */
  lemma DocumentAround(es: seq<Element>, k: nat)
    requires k < |es| && es[k].node.Sub?
    ensures EncodeDoc(es)
         == U32le(|EncodeDoc(es)|) + Lead(es, k) + EncodeDoc(es[k].node.es) + (EncodeList(es[k + 1..]) + [0])
  {
    hide EncodeList;
    var head := [es[k].node.Tag()] + es[k].key + [0];
    EncodeListPick(es, k);
    WrapOne(U32le(|EncodeDoc(es)|), EncodeList(es[..k]), head, EncodeDoc(es[k].node.es), EncodeList(es[k + 1..]));
    assert Lead(es, k) == EncodeList(es[..k]) + head;
  }

  lemma WrapOne(h: seq<byte>, a: seq<byte>, b: seq<byte>, c: seq<byte>, d: seq<byte>)
    ensures h + (a + (b + c) + d) + [0] == h + (a + b) + c + (d + [0])
  {
  }

  /** Replacing the inner document changes neither the frames nor the path. */
  lemma {:induction false} UpdateKeepsFrames(es: seq<Element>, path: seq<nat>, inner: seq<Element>)
    requires ValidPath(es, path)
    ensures ValidPath(Update(es, path, inner), path)
    ensures Inner(Update(es, path, inner), path) == inner
    ensures FramesOf(Update(es, path, inner), path) == FramesOf(es, path)
  {
    if path != [] {
      var k := path[0];
      var es' := Update(es, path, inner);
      UpdateKeepsFrames(es[k].node.es, path[1..], inner);
      assert es'[..k] == es[..k] && es'[k + 1..] == es[k + 1..];
    }
  }

  lemma {:induction false} UpdateSame(es: seq<Element>, path: seq<nat>)
    requires ValidPath(es, path)
    ensures Update(es, path, Inner(es, path)) == es
  {
    if path != [] {
      UpdateSame(es[path[0]].node.es, path[1..]);
    }
  }

  lemma {:induction false} UpdateTwice(es: seq<Element>, path: seq<nat>, a: seq<Element>, b: seq<Element>)
    requires ValidPath(es, path)
    ensures ValidPath(Update(es, path, a), path)
    ensures Update(Update(es, path, a), path, b) == Update(es, path, b)
  {
    if path != [] {
      UpdateTwice(es[path[0]].node.es, path[1..], a, b);
    }
  }

  /**
   A splice that turns the encoding of the inner elements into the encoding of
   other elements turns the encoding of the whole tree into that of the updated
   tree; every byte outside the inner body and the headers above it is kept.
   */
  lemma SpliceIsUpdate(
      es: seq<Element>, path: seq<nat>, rel: nat, nDelete: nat, ins: seq<byte>, inner: seq<Element>)
    requires ValidPath(es, path)
    requires rel + nDelete <= |EncodeList(Inner(es, path))|
    requires EncodeList(inner) == Splice(EncodeList(Inner(es, path)), rel, nDelete, ins)
    ensures Edited([], FramesOf(es, path), EncodeList(Inner(es, path)), [], rel, nDelete, ins)
         == EncodeDoc(Update(es, path, inner))
  {
    var fs, body := FramesOf(es, path), EncodeList(Inner(es, path));
    SpliceLaw([], fs, body, [], rel, nDelete, ins);
    UpdateKeepsFrames(es, path, inner);
    EncodeIsWrapped(Update(es, path, inner), path);
    assert Buffer([], fs, EncodeList(inner), []) == Wrap(fs, EncodeList(inner));
  }

  // ----- edits of the element list are splices of its encoding

  /** Elements `i..j` replaced by `new`. */
  function Replace(es: seq<Element>, i: nat, j: nat, new_: seq<Element>): seq<Element>
    requires i <= j <= |es|
  {
    es[..i] + new_ + es[j..]
  }

  lemma ReplaceIsSplice(es: seq<Element>, i: nat, j: nat, new_: seq<Element>)
    requires i <= j <= |es|
    ensures var at, end := ElemOffset(es, i) - 4, ElemOffset(es, j) - 4;
      && at <= end <= |EncodeList(es)|
      && EncodeList(Replace(es, i, j, new_)) == Splice(EncodeList(es), at, end - at, EncodeList(new_))
  {
    EncodeListAppend(es[..i] + new_, es[j..]);
    EncodeListAppend(es[..i], new_);
    ElemOffsetsAscend(es, i, j);
    EncodeListSplit(es, i);
    EncodeListSplit(es, j);
  }

  lemma RekeyIsSplice(es: seq<Element>, k: nat, key: seq<byte>)
    requires k < |es|
    ensures var at := ElemOffset(es, k) - 4 + 1;
      && at + |es[k].key| <= |EncodeList(es)|
      && EncodeList(es[k := es[k].(key := key)]) == Splice(EncodeList(es), at, |es[k].key|, key)
  {
    hide EncodeList, EncodeElement;
    var e := es[k];
    RekeyPick(es, k, key);
    ElementBytes(e);
    ElementBytes(e.(key := key));
    RekeyBytes(EncodeList(es[..k]), [e.node.Tag()], e.key, key, [0] + EncodeNode(e.node), EncodeList(es[k + 1..]));
  }

  lemma ElementBytes(e: Element)
    ensures EncodeElement(e) == [e.node.Tag()] + e.key + ([0] + EncodeNode(e.node))
  {
  }

  lemma RekeyPick(es: seq<Element>, k: nat, key: seq<byte>)
    requires k < |es|
    ensures EncodeList(es) == EncodeList(es[..k]) + EncodeElement(es[k]) + EncodeList(es[k + 1..])
    ensures EncodeList(es[k := es[k].(key := key)])
         == EncodeList(es[..k]) + EncodeElement(es[k].(key := key)) + EncodeList(es[k + 1..])
  {
    hide *;
    var es' := es[k := es[k].(key := key)];
    EncodeListPick(es, k);
    EncodeListPick(es', k);
    assert es'[..k] == es[..k] && es'[k + 1..] == es[k + 1..];
  }

  lemma RekeyBytes(a: seq<byte>, t: seq<byte>, key: seq<byte>, key': seq<byte>, v: seq<byte>, z: seq<byte>)
    ensures Splice(a + (t + key + v) + z, |a| + |t|, |key|, key') == a + (t + key' + v) + z
  {
  }
}
