/**
 Reading a document element by element: `_bson_valsize` (`include/bson/detail/iter.h`),
 `_bson_iterator_at`, `bson_next`, `_bson_find` (`include/bson/iterator.h`) and
 `bson_view_from_data` (`include/bson/view.h`).

 An assertion that aborts the process is the explicit outcome `Abort`/`Aborted`.
 Every index into a sequence is checked by the verifier, so the functions below
 cannot read outside the bytes they are given.
 */
module Iteration {
  import opened Bytes
  import opened Document

  datatype Errc = ShortRead | InvalidType | InvalidLength | InvalidDocument

  datatype Sized = Size(n: nat) | Bad(errc: Errc) | Abort

  const TAG_REGEX: byte := 0x0B

  // ----- sizes of values

  function ConstSize(tag: byte): nat {
    if tag == 0 || tag == 3 || tag == 4 || tag == 6 || tag == 0xA || tag == 0x7F || tag == 0xFF then 0
    else if tag == 8 then 1
    else if tag == 2 || tag == 0xD || tag == 0xE || tag == 0x10 then 4
    else if tag == 5 then 5
    else if tag == 1 || tag == 9 || tag == 0xF || tag == 0x11 || tag == 0x12 then 8
    else if tag == 7 || tag == 0xC then 12
    else if tag == 0x13 then 16
    else INT32_MAX
  }

  predicate HasPrefix(tag: byte) {
    tag == 2 || tag == 3 || tag == 4 || tag == 5 || tag == 0xC || tag == 0xD || tag == 0xE || tag == 0xF
  }

  /** `strnlen` over the readable bytes `s`: stops at the first NUL or after `max` bytes. */
  function Strnlen(s: seq<byte>, max: nat): (n: nat)
    requires |s| >= max || 0 in s
    ensures n <= max && n <= |s| && 0 !in s[..n]
    ensures n < max ==> n < |s| && s[n] == 0
  {
    if max == 0 || s[0] == 0 then 0 else 1 + Strnlen(s[1..], max - 1)
  }

  /** The position of the first NUL. */
  function Strlen(s: seq<byte>): (n: nat)
    requires 0 in s
    ensures n < |s| && s[n] == 0 && 0 !in s[..n]
  {
    Strnlen(s, |s|)
  }

  predicate TwoNuls(s: seq<byte>) {
    0 in s && 0 in s[Strlen(s) + 1..]
  }

  /** The size of the two NUL-terminated strings that `s` starts with. */
  function TwoStrings(s: seq<byte>): (n: nat)
    requires TwoNuls(s)
    ensures 2 <= n <= |s|
  {
    var rx := Strlen(s) + 1;
    rx + Strlen(s[rx..]) + 1
  }

  /** Enough bytes are readable to size a value of this tag under the bound `maxlen`. */
  predicate Readable(tag: byte, v: seq<byte>, maxlen: nat) {
    |v| >= maxlen || ((HasPrefix(tag) ==> |v| >= 4) && (tag == TAG_REGEX ==> TwoNuls(v)))
  }

  /** `_bson_value_re_len`: two consecutive NUL-terminated strings. */
  function RegexSize(v: seq<byte>, maxlen: nat): Sized
    requires 0 < maxlen <= INT32_MAX && (|v| >= maxlen || TwoNuls(v))
  {
    FirstNul(v);
    var rx := Strnlen(v, maxlen) + 1;
    if rx > maxlen then Bad(InvalidLength)
    else
      var avail := maxlen - rx;
      var opt := Strnlen(v[rx..], avail);
      if avail - opt < 2 then Bad(ShortRead) else Size(rx + opt + 1)
  }

  /** `_bson_valsize`. */
  function ValSize(tag: byte, v: seq<byte>, maxlen: nat): Sized
    requires 0 < maxlen <= INT32_MAX && Readable(tag, v, maxlen)
  {
    if HasPrefix(tag) then
      if maxlen <= 4 then Bad(InvalidLength)
      else
        var varlen := AsInt32(ReadU32le(v));
        if varlen < 0 then Abort else CheckRoom(tag, v, maxlen, ConstSize(tag) + varlen)
    else CheckRoom(tag, v, maxlen, ConstSize(tag))
  }

  /** `_bson_valsize` when all the readable bytes belong to the document. */
  function Measure(tag: byte, v: seq<byte>): Sized
    requires 0 < |v| <= INT32_MAX
  {
    ValSize(tag, v, |v|)
  }

  function CheckRoom(tag: byte, v: seq<byte>, maxlen: nat, fullLen: nat): Sized
    requires 0 < maxlen <= INT32_MAX && Readable(tag, v, maxlen)
  {
    if fullLen < maxlen then Size(fullLen)
    else if tag == TAG_REGEX then RegexSize(v, maxlen)
    else if ConstSize(tag) == INT32_MAX then Bad(InvalidType)
    else Bad(InvalidLength)
  }

  /** Every bound that reaches the first NUL gives the same length. */
  lemma {:induction false} FirstNul(s: seq<byte>)
    ensures 0 in s ==> forall max: nat :: Strlen(s) <= max ==> Strnlen(s, max) == Strlen(s)
  {
    if 0 in s {
      forall max: nat | Strlen(s) <= max
        ensures Strnlen(s, max) == Strlen(s)
      {
        FirstNulUnique(s, Strnlen(s, max), Strlen(s));
      }
    }
  }

  lemma FirstNulUnique(s: seq<byte>, n: nat, m: nat)
    requires n < |s| && m < |s| && s[n] == s[m] == 0
    requires 0 !in s[..n] && 0 !in s[..m]
    ensures n == m
  {
  }

  lemma StrnlenPrefix(s: seq<byte>, max: nat, s': seq<byte>, max': nat)
    requires |s| >= max || 0 in s
    requires Strnlen(s, max) < max <= max' && s <= s'
    ensures 0 in s && 0 in s' && Strlen(s') == Strlen(s) == Strnlen(s, max) == Strnlen(s', max')
  {
    var n := Strnlen(s, max);
    assert s[n] == s'[n] && s[n] in s && s'[n] in s';
    assert s[..n] == s'[..n];
    FirstNul(s);
    FirstNul(s');
    FirstNulUnique(s, n, Strlen(s));
    FirstNulUnique(s', n, Strlen(s'));
  }

  /**
   A size found under a bound is found under every larger bound, and from any
   bytes that begin with the same ones.
   */
  lemma ValSizeLarger(tag: byte, v: seq<byte>, maxlen: nat, v': seq<byte>, maxlen': nat)
    requires 0 < maxlen <= maxlen' <= INT32_MAX && |v| >= maxlen && v <= v'
    requires ValSize(tag, v, maxlen).Size?
    ensures ValSize(tag, v, maxlen).n < maxlen
    ensures Readable(tag, v', maxlen')
    ensures ValSize(tag, v', maxlen') == ValSize(tag, v, maxlen)
  {
    if tag == TAG_REGEX {
      RegexSizeLarger(v, maxlen, v', maxlen');
    } else if HasPrefix(tag) {
      assert v[0] == v'[0] && v[1] == v'[1] && v[2] == v'[2] && v[3] == v'[3];
    }
  }

  lemma RegexSizeLarger(v: seq<byte>, maxlen: nat, v': seq<byte>, maxlen': nat)
    requires 0 < maxlen <= maxlen' <= INT32_MAX && |v| >= maxlen && v <= v'
    requires RegexSize(v, maxlen).Size?
    ensures RegexSize(v, maxlen).n < maxlen
    ensures TwoNuls(v')
    ensures RegexSize(v', maxlen') == RegexSize(v, maxlen)
  {
    var rx := Strnlen(v, maxlen) + 1;
    StrnlenPrefix(v, maxlen, v', maxlen');
    assert v[rx..] <= v'[rx..];
    StrnlenPrefix(v[rx..], maxlen - rx, v'[rx..], maxlen' - rx);
  }

  // ----- one element

  datatype Parsed = Elem(keylen: nat) | Terminator | Malformed(errc: Errc) | Aborts

  /** The fixed-size types for which the size check is skipped when 17 bytes are left. */
  predicate SkipsCheck(tag: byte) {
    tag == 0xA || tag == 6 || tag == 0x11 || tag == 9 || tag == 1 || tag == 8 || tag == 0x13
    || tag == 0x10 || tag == 0x12
  }

  /** The bytes from an element to the end of its document, terminator included. */
  ghost predicate ToTerminator(s: seq<byte>) {
    0 < |s| <= INT32_MAX && s[|s| - 1] == 0
  }

  /** The length of the key of the element that starts `s`. */
  function KeyLen(s: seq<byte>): (n: nat)
    requires ToTerminator(s) && |s| > 1
    ensures n + 2 <= |s| && s[n + 1] == 0 && 0 !in s[1..n + 1]
  {
    assert s[|s| - 1] in s[1..];
    var n := Strlen(s[1..]);
    assert s[1..][..n] == s[1..n + 1];
    n
  }

  /** The core of `_bson_iterator_at`. */
  function ElementAt(s: seq<byte>): Parsed
    requires ToTerminator(s)
  {
    if |s| == 1 then Terminator
    else
      var tag := s[0];
      var keylen := KeyLen(s);
      var valMaxlen := |s| - 1 - keylen - 1;
      if valMaxlen < 1 then Malformed(ShortRead)
      else if valMaxlen > 16 && SkipsCheck(tag) then Elem(keylen)
      else
        match ValSize(tag, s[keylen + 2..], valMaxlen)
        case Abort => Aborts
        case Bad(e) => Malformed(e)
        case Size(n) =>
          ValSizeLarger(tag, s[keylen + 2..], valMaxlen, s[keylen + 2..], valMaxlen);
          if (tag == TAG_DOCUMENT || tag == TAG_ARRAY) && s[keylen + 2 + n - 1] != 0
          then Malformed(InvalidDocument)
          else Elem(keylen)
  }

  /**
   The skipped size check would have passed: an accepted element has a size,
   ends strictly before the document's terminator, and has that same size when
   it is measured again without a bound.
   */
  lemma ElementFits(s: seq<byte>)
    requires ToTerminator(s) && ElementAt(s).Elem?
    ensures |s| > 2
    ensures var keylen := KeyLen(s);
      var v := s[keylen + 2..];
      && ElementAt(s).keylen == keylen
      && |v| > 0 && Readable(s[0], v, INT32_MAX)
      && ValSize(s[0], v, |v|).Size?
      && ValSize(s[0], v, INT32_MAX) == ValSize(s[0], v, |v|)
      && keylen + 2 + ValSize(s[0], v, INT32_MAX).n < |s|
      && (s[0] == TAG_DOCUMENT || s[0] == TAG_ARRAY ==> s[keylen + 2 + ValSize(s[0], v, |v|).n - 1] == 0)
  {
    var v := s[KeyLen(s) + 2..];
    assert ValSize(s[0], v, |v|).Size?;
    ValSizeLarger(s[0], v, |v|, v, INT32_MAX);
  }

  /** The process aborts exactly on a length prefix that is negative. */
  lemma AbortsIffNegativePrefix(s: seq<byte>)
    requires ToTerminator(s)
    ensures ElementAt(s) == Aborts <==>
      && |s| > 1 && HasPrefix(s[0]) && |s| - KeyLen(s) - 2 > 4
      && AsInt32(ReadU32le(s[KeyLen(s) + 2..])) < 0
  {
  }

  // ----- iterators

  /** `bson_iterator`: a position in memory, or an error code; `rlen <= 1` is the end. */
  datatype Iterator = At(pos: nat, keylen: nat, rlen: nat) | Errant(errc: Errc) | Aborted

  predicate Stop(it: Iterator) {
    !it.At? || it.rlen <= 1
  }

  ghost predicate Spans(mem: seq<byte>, pos: nat, maxlen: nat) {
    pos + maxlen <= |mem| && ToTerminator(mem[pos..pos + maxlen])
  }

  lemma SpansTail(mem: seq<byte>, pos: nat, maxlen: nat, skip: nat)
    requires Spans(mem, pos, maxlen) && skip < maxlen
    ensures Spans(mem, pos + skip, maxlen - skip)
  {
    assert mem[pos..pos + maxlen][maxlen - 1] == mem[pos + maxlen - 1];
  }

  function IteratorAt(mem: seq<byte>, pos: nat, maxlen: nat): (it: Iterator)
    requires Spans(mem, pos, maxlen)
    ensures it.At? ==> it.pos == pos && it.rlen == maxlen
  {
    match ElementAt(mem[pos..pos + maxlen])
    case Terminator => At(pos, 0, 1)
    case Elem(keylen) => At(pos, keylen, maxlen)
    case Malformed(e) => Errant(e)
    case Aborts => Aborted
  }

  /** `it` is the iterator that validation yields at its own position. */
  ghost predicate Produced(mem: seq<byte>, it: Iterator) {
    it.At? ==> Spans(mem, it.pos, it.rlen) && it == IteratorAt(mem, it.pos, it.rlen)
  }

  /** The element an iterator stands at. */
  lemma ElementOf(mem: seq<byte>, it: Iterator)
    requires Produced(mem, it) && !Stop(it)
    ensures Spans(mem, it.pos, it.rlen) && it.pos + it.rlen <= |mem| && it.rlen <= INT32_MAX
    ensures ElementAt(mem[it.pos..it.pos + it.rlen]) == Elem(it.keylen)
  {
    hide ElementAt;
  }

  /** `bson_iterator_data_size`, which measures the value without a bound. */
  function DataSize(mem: seq<byte>, it: Iterator): (n: nat)
    requires Produced(mem, it) && !Stop(it)
    ensures it.keylen + 2 <= n < it.rlen
  {
    var s := mem[it.pos..it.pos + it.rlen];
    ElementFits(s);
    it.keylen + 2 + ValSize(s[0], s[it.keylen + 2..], INT32_MAX).n
  }

  /** The size under the bound of the document is the one `DataSize` uses. */
  lemma DataSizeBounded(mem: seq<byte>, it: Iterator)
    requires Produced(mem, it) && !Stop(it)
    ensures it.At? && it.pos + it.rlen <= |mem| && it.keylen + 2 < it.rlen <= INT32_MAX
    ensures var s := mem[it.pos..it.pos + it.rlen];
      ValSize(s[0], s[it.keylen + 2..], it.rlen - it.keylen - 2) == Size(DataSize(mem, it) - it.keylen - 2)
  {
    hide ElementAt, KeyLen, ValSize, IteratorAt;
    ElementOf(mem, it);
    ElementFits(mem[it.pos..it.pos + it.rlen]);
  }

  function Next(mem: seq<byte>, it: Iterator): (r: Iterator)
    requires Produced(mem, it) && !Stop(it)
    ensures Produced(mem, r)
    ensures r.At? ==> r.pos == it.pos + DataSize(mem, it) && r.pos + r.rlen == it.pos + it.rlen && r.rlen < it.rlen
  {
    hide ElementAt, KeyLen, ValSize;
    var skip := DataSize(mem, it);
    SpansTail(mem, it.pos, it.rlen, skip);
    IteratorAt(mem, it.pos + skip, it.rlen - skip)
  }

  ghost predicate KeyReadable(mem: seq<byte>, it: Iterator) {
    it.At? && it.pos + 1 + it.keylen <= |mem|
  }

  /** The key bytes an iterator refers to. */
  function Key(mem: seq<byte>, it: Iterator): seq<byte>
    requires KeyReadable(mem, it)
  {
    mem[it.pos + 1..it.pos + 1 + it.keylen]
  }

  // ----- documents

  datatype ViewErrc = ViewShortRead | InvalidHeader | InvalidTerminator
  datatype ViewResult = View(bytes: seq<byte>) | NoView(errc: ViewErrc)

  /** `bson_view_from_data` on the addressable bytes `data`. */
  function ViewFromData(data: seq<byte>): (r: ViewResult)
    ensures r.View? <==> exists len :: IsDocument(data, len)
    ensures r.View? ==> IsDocument(data, |r.bytes|) && r.bytes == data[..|r.bytes|]
  {
    if |data| < 5 then NoView(ViewShortRead)
    else
      var len := AsInt32(ReadU32le(data));
      if len < 5 then NoView(InvalidHeader)
      else if len > |data| then NoView(ViewShortRead)
      else if data[len - 1] != 0 then NoView(InvalidTerminator)
      else
        assert IsDocument(data, len);
        View(data[..len])
  }

  /** `data` begins with a document of `len` bytes: header, body and terminator. */
  ghost predicate IsDocument(data: seq<byte>, len: nat) {
    5 <= len <= |data| && AsInt32(ReadU32le(data)) == len && data[len - 1] == 0
  }

  ghost predicate IsView(b: seq<byte>) {
    IsDocument(b, |b|)
  }

  function Begin(b: seq<byte>): (it: Iterator)
    requires IsView(b)
    ensures Produced(b, it) && (it.At? ==> it.pos == 4 && it.pos + it.rlen == |b|)
  {
    IteratorAt(b, 4, |b| - 4)
  }

  /** An accepted view whose only element has a negative length prefix: reading it aborts. */
  lemma NegativePrefixAborts()
    ensures var b: seq<byte> := [12, 0, 0, 0, 2, 0, 255, 255, 255, 255, 0, 0];
      ViewFromData(b) == View(b) && IsView(b) && Begin(b) == Aborted
  {
    var b: seq<byte> := [12, 0, 0, 0, 2, 0, 255, 255, 255, 255, 0, 0];
    assert IsDocument(b, 12);
    assert b[..12] == b;
    var s := b[4..12];
    assert s == [2, 0, 255, 255, 255, 255, 0, 0];
    assert s[1..][0] == 0;
    assert KeyLen(s) == 0;
    AbortsIffNegativePrefix(s);
  }

  function End(b: seq<byte>): (it: Iterator)
    requires IsView(b)
    ensures it == At(|b| - 1, 0, 1) && Produced(b, it)
  {
    IteratorAt(b, |b| - 1, 1)
  }

  // ----- a whole walk

  datatype Trace = Trace(visited: seq<Iterator>, last: Iterator)

  /** The iterators that repeated `bson_next` visits, and the one at which it stops. */
  function Walk(mem: seq<byte>, it: Iterator): (t: Trace)
    requires Produced(mem, it)
    ensures forall k :: 0 <= k < |t.visited| ==> Produced(mem, t.visited[k]) && !Stop(t.visited[k])
    ensures Produced(mem, t.last) && Stop(t.last)
    decreases if it.At? then it.rlen else 0
  {
    if Stop(it) then Trace([], it)
    else
      var rest := Walk(mem, Next(mem, it));
      Trace([it] + rest.visited, rest.last)
  }

  /** The visited elements lie one right after the other, from byte `from` up to byte `to`. */
  ghost predicate Tiles(mem: seq<byte>, visited: seq<Iterator>, from: nat, to: nat)
    requires forall k :: 0 <= k < |visited| ==> Produced(mem, visited[k]) && !Stop(visited[k])
  {
    if visited == [] then from == to
    else visited[0].At? && visited[0].pos == from && Tiles(mem, visited[1..], from + DataSize(mem, visited[0]), to)
  }

  lemma StopIsEnd(mem: seq<byte>, it: Iterator)
    requires Produced(mem, it) && Stop(it) && it.At?
    ensures it == At(it.pos, 0, 1)
  {
  }

  /**
   Walking any accepted document terminates; every visited element ends before
   the terminator; and unless an error is met the elements tile the body exactly
   and the walk stops at the past-the-end iterator.
   */
  lemma {:induction false} WalkTiles(mem: seq<byte>, it: Iterator, end: nat)
    requires Produced(mem, it) && (it.At? ==> it.pos + it.rlen == end)
    ensures var t := Walk(mem, it);
      && (forall k :: 0 <= k < |t.visited| ==>
            t.visited[k].pos + t.visited[k].rlen == end && t.visited[k].pos + DataSize(mem, t.visited[k]) < end)
      && (t.last.At? ==> t.last == At(end - 1, 0, 1) && it.At? && Tiles(mem, t.visited, it.pos, end - 1))
    decreases if it.At? then it.rlen else 0
  {
    hide IteratorAt, DataSize;
    if Stop(it) {
      if it.At? {
        StopIsEnd(mem, it);
      }
    } else {
      WalkTiles(mem, Next(mem, it), end);
      var rest := Walk(mem, Next(mem, it));
      assert ([it] + rest.visited)[1..] == rest.visited;
    }
  }

  /** `WalkTiles` for a whole document. */
  lemma DocumentWalkTiles(b: seq<byte>)
    requires IsView(b)
    ensures var t := Walk(b, Begin(b));
      && (forall k :: 0 <= k < |t.visited| ==> t.visited[k].pos + DataSize(b, t.visited[k]) < |b|)
      && (t.last.At? ==> t.last == End(b) && Tiles(b, t.visited, 4, |b| - 1))
  {
    hide Walk, DataSize, IteratorAt, Tiles, Begin;
    WalkTiles(b, Begin(b), |b|);
  }

  // ----- finding a key

  lemma WalkKeysReadable(mem: seq<byte>, it: Iterator)
    requires Produced(mem, it)
    ensures forall k :: 0 <= k < |Walk(mem, it).visited| ==> KeyReadable(mem, Walk(mem, it).visited[k])
  {
    hide Walk, IteratorAt;
    var vs := Walk(mem, it).visited;
    forall k | 0 <= k < |vs|
      ensures KeyReadable(mem, vs[k])
    {
      var size := DataSize(mem, vs[k]);
    }
  }

  /** What a search reports for a walk: the first visited element with the key, else `end`. */
  ghost function Search(mem: seq<byte>, t: Trace, key: seq<byte>, end: Iterator): Iterator
    requires forall k :: 0 <= k < |t.visited| ==> KeyReadable(mem, t.visited[k])
    decreases |t.visited|
  {
    if t.visited == [] then if t.last.Aborted? then Aborted else end
    else if Key(mem, t.visited[0]) == key then t.visited[0]
    else Search(mem, Trace(t.visited[1..], t.last), key, end)
  }

  /** The search result by position: nothing before it has the key. */
  lemma {:induction false} SearchIsFirstMatch(mem: seq<byte>, t: Trace, key: seq<byte>, end: Iterator) returns (k: nat)
    requires forall k :: 0 <= k < |t.visited| ==> KeyReadable(mem, t.visited[k])
    ensures k <= |t.visited|
    ensures forall j :: 0 <= j < k ==> Key(mem, t.visited[j]) != key
    ensures k < |t.visited| ==> Key(mem, t.visited[k]) == key && Search(mem, t, key, end) == t.visited[k]
    ensures k == |t.visited| ==> Search(mem, t, key, end) == if t.last.Aborted? then Aborted else end
    decreases |t.visited|
  {
    if t.visited == [] || Key(mem, t.visited[0]) == key {
      k := 0;
    } else {
      var rest := t.visited[1..];
      k := SearchIsFirstMatch(mem, Trace(rest, t.last), key, end);
      k := k + 1;
      forall j | 0 <= j < k
        ensures Key(mem, t.visited[j]) != key
      {
        if j > 0 {
          assert t.visited[j] == rest[j - 1];
        }
      }
    }
  }

  ghost function SearchDocument(b: seq<byte>, key: seq<byte>): Iterator
    requires IsView(b)
  {
    WalkKeysReadable(b, Begin(b));
    Search(b, Walk(b, Begin(b)), key, End(b))
  }

  /** `_bson_find`: an error met on the way ends the search as if the key were absent. */
  method Find(b: seq<byte>, key: seq<byte>) returns (r: Iterator)
    requires IsView(b)
    ensures r == SearchDocument(b, key)
  {
    hide IteratorAt, DataSize, Begin, End, Next;
    WalkKeysReadable(b, Begin(b));
    var sentinel := End(b);
    var it := Begin(b);
    while !Stop(it)
      invariant Produced(b, it)
      invariant forall k :: 0 <= k < |Walk(b, it).visited| ==> KeyReadable(b, Walk(b, it).visited[k])
      invariant Search(b, Walk(b, it), key, sentinel) == Search(b, Walk(b, Begin(b)), key, sentinel)
      decreases if it.At? then it.rlen else 0
    {
      assert Walk(b, it).visited[0] == it;
      if Key(b, it) == key {
        return it;
      }
      var next := Next(b, it);
      WalkKeysReadable(b, next);
      assert Walk(b, it).visited[1..] == Walk(b, next).visited;
      it := next;
    }
    r := if it.Aborted? then Aborted else sentinel;
  }
}
