/**
 Element values (`bson_value_ref`): the bytes they are stored as, and reading
 them back (`bson_iterator_value` in `include/bson/iterator.h`).
 */
module Values {
  import opened Bytes
  import opened Document
  import opened Iteration
  import opened Reading

  datatype Option<+T> = None | Some(value: T)

  /** `bson_value_ref`. A document or array is a view of its bytes; a null view is empty. */
  datatype ValueRef =
    | Eod
    | Double(bits: uint64)
    | Utf8(s: seq<byte>)
    | DocumentRef(view: seq<byte>)
    | ArrayRef(view: seq<byte>)
    | Binary(subtype: byte, data: seq<byte>)
    | Undefined
    | Oid(bytes: seq<byte>)
    | Bool(b: bool)
    | DateTime(ms: int)
    | Null
    | Regex(regex: seq<byte>, options: seq<byte>)
    | DbPointer(collection: seq<byte>, id: seq<byte>)
    | Code(s: seq<byte>)
    | Symbol(s: seq<byte>)
    | CodeWithScope(s: seq<byte>, scope: seq<byte>)
    | Int32(i: int)
    | Timestamp(increment: uint32, seconds: uint32)
    | Int64(i: int)
    | Decimal128(bytes: seq<byte>)
    | MaxKey
    | MinKey

  function TagOf(v: ValueRef): byte {
    match v
    case Eod => 0
    case Double(_) => 1
    case Utf8(_) => 2
    case DocumentRef(_) => 3
    case ArrayRef(_) => 4
    case Binary(_, _) => 5
    case Undefined => 6
    case Oid(_) => 7
    case Bool(_) => 8
    case DateTime(_) => 9
    case Null => 0xA
    case Regex(_, _) => 0xB
    case DbPointer(_, _) => 0xC
    case Code(_) => 0xD
    case Symbol(_) => 0xE
    case CodeWithScope(_, _) => 0xF
    case Int32(_) => 0x10
    case Timestamp(_, _) => 0x11
    case Int64(_) => 0x12
    case Decimal128(_) => 0x13
    case MaxKey => 0x7F
    case MinKey => 0xFF
  }

  /** A length-prefixed string, as the grammar's non-terminal `string`. */
  function StringBytes(s: seq<byte>): seq<byte> {
    U32le(|s| + 1) + s + [0]
  }

  /** The value bytes that the BSON Specification version 1.1 prescribes. */
  function Payload(v: ValueRef): seq<byte> {
    match v
    case Eod => []
    case Double(bits) => U64le(bits)
    case Utf8(s) => StringBytes(s)
    case DocumentRef(view) => view
    case ArrayRef(view) => view
    case Binary(subtype, data) => U32le(|data|) + [subtype] + data
    case Undefined => []
    case Oid(bytes) => bytes
    case Bool(b) => [if b then 1 else 0]
    case DateTime(ms) => U64le(ms)
    case Null => []
    case Regex(regex, options) => regex + [0] + options + [0]
    case DbPointer(collection, id) => StringBytes(collection) + id
    case Code(s) => StringBytes(s)
    case Symbol(s) => StringBytes(s)
    case CodeWithScope(s, scope) => U32le(4 + |StringBytes(s)| + |scope|) + StringBytes(s) + scope
    case Int32(i) => U32le(i)
    case Timestamp(increment, seconds) => U32le(increment) + U32le(seconds)
    case Int64(i) => U64le(i)
    case Decimal128(bytes) => bytes
    case MaxKey => []
    case MinKey => []
  }

  predicate IsInt64(i: int) {
    -0x8000_0000_0000_0000 <= i <= 0x7FFF_FFFF_FFFF_FFFF
  }

  /** The ranges that the C types give the components of a value. */
  ghost predicate WellFormed(v: ValueRef) {
    |Payload(v)| < INT32_MAX &&
    match v
    case DocumentRef(view) => IsView(view)
    case ArrayRef(view) => IsView(view)
    case CodeWithScope(_, scope) => IsView(scope)
    case Oid(bytes) => |bytes| == 12
    case DbPointer(_, id) => |id| == 12
    case Decimal128(bytes) => |bytes| == 16
    case DateTime(ms) => IsInt64(ms)
    case Int32(i) => INT32_MIN <= i <= INT32_MAX
    case Int64(i) => IsInt64(i)
    case _ => true
  }

  /** The strings of a regular expression have no NULs, as the format demands and nothing checks. */
  predicate NulFree(v: ValueRef) {
    v.Regex? ==> 0 !in v.regex && 0 !in v.options
  }

  // ----- which values the reader measures correctly

  lemma StringDelimited(s: seq<byte>, rest: seq<byte>)
    requires |s| < INT32_MAX
    ensures |StringBytes(s) + rest| >= 4 && AsInt32(ReadU32le(StringBytes(s) + rest)) == |s| + 1
  {
    ReadWriteU32(|s| + 1, s + [0] + rest);
    assert StringBytes(s) + rest == U32le(|s| + 1) + (s + [0] + rest);
  }

  /** Of a string with a NUL behind it, the first NUL is there exactly if the string has none itself. */
  lemma CutString(s: seq<byte>, rest: seq<byte>)
    ensures var t := s + [0] + rest;
      && 0 in t && Strlen(t) <= |s| && t[..Strlen(t)] == s[..Strlen(t)]
      && (Strlen(t) == |s| <==> 0 !in s)
  {
    var t := s + [0] + rest;
    assert t[|s|] == 0;
    assert t[..|s|] == s;
    assert Strlen(t) < |s| ==> s[Strlen(t)] == 0;
  }

  /** The two strings that a stored regular expression starts with: all of it exactly if it has no NULs. */
  lemma RegexStrings(regex: seq<byte>, options: seq<byte>)
    ensures var p := regex + [0] + options + [0];
      && TwoNuls(p) && Strlen(p) <= |regex| && p[..Strlen(p)] == regex[..Strlen(p)]
      && (Strlen(p) == |regex| <==> 0 !in regex)
      && (0 !in regex && 0 !in options ==>
            Strlen(p[|regex| + 1..]) == |options| && p[|regex| + 1..][..|options|] == options)
      && (0 in regex ==> TwoStrings(p) <= |regex| + 1)
      && (TwoStrings(p) == |p| <==> 0 !in regex && 0 !in options)
  {
    var p := regex + [0] + options + [0];
    CutString(regex, options + [0]);
    assert p == regex + [0] + (options + [0]);
    var n := Strlen(p);
    if n < |regex| {
      assert p[n + 1..] == regex[n + 1..] + [0] + (options + [0]);
      CutString(regex[n + 1..], options + [0]);
    } else {
      assert p[n + 1..] == options + [0] + [];
      CutString(options, []);
    }
  }

  /**
   The reader measures a value by its specified length, whatever follows it, exactly
   when it is neither a dbpointer nor code with scope nor a regular expression with a
   NUL: it counts 12 bytes plus the prefix for the first, which is 4 too few, and 8
   plus the prefix for the second, which is 8 too many; and of the third it counts the
   first two strings.
   */
  lemma MeasuredAsSpecified(v: ValueRef, rest: seq<byte>)
    requires WellFormed(v) && 0 < |rest| && |Payload(v)| + |rest| <= INT32_MAX
    ensures var n, total := |Payload(v)|, |Payload(v)| + |rest|;
      var size := ValSize(TagOf(v), Payload(v) + rest, total);
      && (size == Size(n) <==> !v.DbPointer? && !v.CodeWithScope? && NulFree(v))
      && (v.Regex? ==> TwoNuls(Payload(v)) && size == Size(TwoStrings(Payload(v))))
      && (v.DbPointer? ==> n >= 4 && size == Size(n - 4))
      && (v.CodeWithScope? ==> size == if n + 8 < total then Size(n + 8) else Bad(InvalidLength))
  {
    hide Delimited, Payload, ValSize, WellFormed;
    KindsDelimited(v);
    if v.DbPointer? {
      DbPointerMeasured(v, rest);
    } else if v.CodeWithScope? {
      CodeWithScopeMeasured(v, rest);
    } else if v.Regex? {
      RegexMeasured(v, rest);
    } else {
      DelimitedSize(TagOf(v), Payload(v), rest);
    }
  }

  lemma RegexPayload(v: ValueRef)
    requires v.Regex?
    ensures TwoNuls(Payload(v)) && (TwoStrings(Payload(v)) == |Payload(v)| <==> NulFree(v))
  {
    hide TwoNuls, TwoStrings;
    RegexStrings(v.regex, v.options);
  }

  lemma NulFreeUnlessRegex(v: ValueRef)
    ensures !v.Regex? ==> NulFree(v)
  {
  }

  lemma RegexMeasured(v: ValueRef, rest: seq<byte>)
    requires v.Regex? && 0 < |rest| && |Payload(v)| + |rest| <= INT32_MAX
    ensures TwoNuls(Payload(v)) && (TwoStrings(Payload(v)) == |Payload(v)| <==> NulFree(v))
    ensures ValSize(0xB, Payload(v) + rest, |Payload(v)| + |rest|) == Size(TwoStrings(Payload(v)))
  {
    hide Payload, TwoNuls, TwoStrings, RegexSize, NulFree;
    RegexPayload(v);
    TwoStringsMeasured(Payload(v), rest);
  }

  lemma DbPointerMeasured(v: ValueRef, rest: seq<byte>)
    requires WellFormed(v) && v.DbPointer? && 0 < |rest| && |Payload(v)| + |rest| <= INT32_MAX
    ensures |Payload(v)| == |v.collection| + 17
    ensures ValSize(0xC, Payload(v) + rest, |Payload(v)| + |rest|) == Size(|Payload(v)| - 4)
  {
    hide U32le, ReadU32le;
    var n := |v.collection| + 1;
    ReadWriteU32(n, v.collection + [0] + v.id + rest);
    assert Payload(v) + rest == U32le(n) + (v.collection + [0] + v.id + rest);
  }

  lemma CodeWithScopeMeasured(v: ValueRef, rest: seq<byte>)
    requires WellFormed(v) && v.CodeWithScope? && 0 < |rest| && |Payload(v)| + |rest| <= INT32_MAX
    ensures var n, total := |Payload(v)|, |Payload(v)| + |rest|;
      ValSize(0xF, Payload(v) + rest, total) == if n + 8 < total then Size(n + 8) else Bad(InvalidLength)
  {
    hide U32le, ReadU32le, StringBytes;
    var n := 4 + |StringBytes(v.s)| + |v.scope|;
    ReadWriteU32(n, StringBytes(v.s) + v.scope + rest);
    assert Payload(v) + rest == U32le(n) + (StringBytes(v.s) + v.scope + rest);
  }

  lemma KindsDelimited(v: ValueRef)
    requires WellFormed(v)
    ensures Delimited(TagOf(v), Payload(v)) <==> !v.DbPointer? && !v.CodeWithScope? && NulFree(v)
  {
    hide Delimited, Payload;
    match v
    case Utf8(s) => StringValueDelimited(v, s);
    case Code(s) => StringValueDelimited(v, s);
    case Symbol(s) => StringValueDelimited(v, s);
    case Binary(_, _) => BinaryDelimited(v);
    case DbPointer(_, _) => DbPointerNotDelimited(v);
    case CodeWithScope(_, _) => CodeWithScopeNotDelimited(v);
    case DocumentRef(view) => ViewDelimited(v, view);
    case ArrayRef(view) => ViewDelimited(v, view);
    case Regex(_, _) => RegexValueDelimited(v);
    case _ => FixedDelimited(v);
  }

  lemma StringValueDelimited(v: ValueRef, s: seq<byte>)
    requires WellFormed(v) && (v == Utf8(s) || v == Code(s) || v == Symbol(s))
    ensures Delimited(TagOf(v), Payload(v))
  {
    hide Delimited, U32le;
    assert Payload(v) == U32le(|s| + 1) + (s + [0]);
    PrefixDelimited(TagOf(v), |s| + 1, s + [0], Payload(v));
  }

  lemma BinaryDelimited(v: ValueRef)
    requires WellFormed(v) && v.Binary?
    ensures Delimited(TagOf(v), Payload(v))
  {
    hide Delimited, U32le;
    assert Payload(v) == U32le(|v.data|) + ([v.subtype] + v.data);
    PrefixDelimited(5, |v.data|, [v.subtype] + v.data, Payload(v));
  }

  lemma DbPointerNotDelimited(v: ValueRef)
    requires WellFormed(v) && v.DbPointer?
    ensures !Delimited(TagOf(v), Payload(v))
  {
    hide Delimited, U32le;
    var n := |v.collection| + 1;
    assert Payload(v) == U32le(n) + (v.collection + [0] + v.id);
    PrefixDelimited(0xC, n, v.collection + [0] + v.id, Payload(v));
  }

  lemma CodeWithScopeNotDelimited(v: ValueRef)
    requires WellFormed(v) && v.CodeWithScope?
    ensures !Delimited(TagOf(v), Payload(v))
  {
    hide Delimited, U32le, StringBytes;
    var n := 4 + |StringBytes(v.s)| + |v.scope|;
    assert Payload(v) == U32le(n) + (StringBytes(v.s) + v.scope);
    PrefixDelimited(0xF, n, StringBytes(v.s) + v.scope, Payload(v));
  }

  lemma PrefixDelimited(tag: byte, n: nat, tail: seq<byte>, payload: seq<byte>)
    requires HasPrefix(tag) && tag != TAG_DOCUMENT && tag != TAG_ARRAY && n <= INT32_MAX && 4 + |tail| < INT32_MAX
    requires payload == U32le(n) + tail
    ensures Delimited(tag, payload) <==> ConstSize(tag) + n == 4 + |tail|
  {
    ReadWriteU32(n, tail);
  }

  lemma ViewDelimited(v: ValueRef, view: seq<byte>)
    requires WellFormed(v) && (v == DocumentRef(view) || v == ArrayRef(view))
    ensures Delimited(TagOf(v), Payload(v))
  {
  }

  lemma RegexValueDelimited(v: ValueRef)
    requires WellFormed(v) && v.Regex?
    ensures Delimited(TagOf(v), Payload(v)) <==> NulFree(v)
  {
    hide TwoNuls, TwoStrings, Payload;
    RegexPayload(v);
  }

  lemma FixedDelimited(v: ValueRef)
    requires WellFormed(v) && !HasPrefix(TagOf(v)) && !v.Regex?
    ensures Delimited(TagOf(v), Payload(v))
  {
  }

  // ----- reading a value

  /** A string-like value; an empty string trips the assertion on its length. */
  function ReadString(v: seq<byte>, rlen: nat): (r: Option<seq<byte>>)
    requires |v| >= 4 && 4 + AsInt32(ReadU32le(v)) <= |v|
  {
    var len := AsInt32(ReadU32le(v));
    if len >= 1 && len - 1 > 0 && len - 1 < rlen then Some(v[4..4 + len - 1]) else None
  }

  /** How many bytes behind the length prefix and its string a dbpointer's object id takes. */
  const ID_SIZE := 12

  /** Where the read of a dbpointer value ends: the prefix, the name it counts, and the id behind it. */
  function DbPointerEnd(mem: seq<byte>, it: Iterator): (end: nat)
    requires Produced(mem, it) && !Stop(it) && mem[it.pos] == 0xC
    ensures end == it.pos + DataSize(mem, it) + 4
  {
    hide *;
    DbPointerExtent(mem, it);
    it.pos + it.keylen + 2 + 4 + AsInt32(ReadU32le(mem[it.pos..it.pos + it.rlen][it.keylen + 2..])) + ID_SIZE
  }

  lemma DbPointerExtent(mem: seq<byte>, it: Iterator)
    requires Produced(mem, it) && !Stop(it) && mem[it.pos] == 0xC
    ensures it.At? && it.pos + it.rlen <= |mem| && it.keylen + 6 <= it.rlen
    ensures var prefix := AsInt32(ReadU32le(mem[it.pos..it.pos + it.rlen][it.keylen + 2..]));
      0 <= prefix && DataSize(mem, it) == it.keylen + 2 + 12 + prefix
  {
    hide *;
    DataSizeBounded(mem, it);
    DbPointerSize(mem[it.pos..it.pos + it.rlen][it.keylen + 2..]);
  }

  lemma DbPointerSize(v: seq<byte>)
    requires 0 < |v| <= INT32_MAX && ValSize(0xC, v, |v|).Size?
    ensures |v| >= 4 && AsInt32(ReadU32le(v)) >= 0
    ensures ValSize(0xC, v, |v|) == Size(12 + AsInt32(ReadU32le(v)))
    ensures ValSize(0xC, v, INT32_MAX) == Size(12 + AsInt32(ReadU32le(v)))
  {
  }

  /**
   Reading the value stays within the document: always, unless the element is a
   dbpointer, which is validated for four bytes less than are read.
   */
  predicate ReadStaysInside(mem: seq<byte>, it: Iterator)
    requires Produced(mem, it) && !Stop(it)
  {
    mem[it.pos] == 0xC ==> DataSize(mem, it) + 4 <= it.rlen
  }

  lemma DbPointerReadInsideIff(mem: seq<byte>, it: Iterator)
    requires Produced(mem, it) && !Stop(it) && mem[it.pos] == 0xC
    ensures DbPointerEnd(mem, it) <= it.pos + it.rlen <==> ReadStaysInside(mem, it)
    ensures DbPointerEnd(mem, it) <= it.pos + it.rlen + 3
  {
  }

  /** An accepted document whose only element is a dbpointer that is read past the document's end. */
  lemma DbPointerReadsPastEnd()
    ensures var b: seq<byte> := [20, 0, 0, 0, 0xC, 0, 1, 0, 0, 0, 0, 0, 0, 0, 0, 0, 0, 0, 0, 0];
      && IsView(b) && Begin(b) == At(4, 0, 16)
      && DbPointerEnd(b, Begin(b)) == |b| + 3
  {
    hide ReadU32le;
    var b: seq<byte> := [20, 0, 0, 0, 0xC, 0, 1, 0, 0, 0, 0, 0, 0, 0, 0, 0, 0, 0, 0, 0];
    var s := b[4..20];
    assert s == [0xC, 0, 1, 0, 0, 0, 0, 0, 0, 0, 0, 0, 0, 0, 0, 0];
    ReadSmall(20, b);
    assert s[1..][0] == 0;
    assert KeyLen(s) == 0;
    ReadSmall(1, s[2..]);
    DbPointerSize(s[2..]);
  }

  lemma ReadSmall(n: byte, v: seq<byte>)
    requires |v| >= 4 && v[..4] == [n, 0, 0, 0]
    ensures ReadU32le(v) == n
  {
    assert v[0] == v[..4][0] && v[1] == v[..4][1] && v[2] == v[..4][2] && v[3] == v[..4][3];
  }

  /** `bson_iterator_value`; `None` when an assertion aborts the process. */
  function ReadValue(mem: seq<byte>, it: Iterator): Option<ValueRef>
    requires Produced(mem, it) && !Stop(it) && ReadStaysInside(mem, it)
  {
    hide *;
    ReadyToRead(mem, it);
    var s := mem[it.pos..it.pos + it.rlen];
    ReadTagged(s[0], s[it.keylen + 2..], it.rlen)
  }

  /** What makes `ReadValue` well defined. */
  lemma ReadyToRead(mem: seq<byte>, it: Iterator)
    requires Produced(mem, it) && !Stop(it) && ReadStaysInside(mem, it)
    ensures it.At? && it.pos + it.rlen <= |mem| && it.keylen + 2 < it.rlen <= INT32_MAX
    ensures var s := mem[it.pos..it.pos + it.rlen];
      var v := s[it.keylen + 2..];
      && ValSize(s[0], v, |v|).Size?
      && (s[0] == 0xC ==> |v| >= 4 && 4 + AsInt32(ReadU32le(v)) + ID_SIZE <= |v|)
  {
    hide ElementAt, KeyLen, ValSize, ReadU32le, Produced, DataSize;
    DataSizeBounded(mem, it);
    var s := mem[it.pos..it.pos + it.rlen];
    if s[0] == 0xC {
      DbPointerSize(s[it.keylen + 2..]);
    }
  }

  function ReadTagged(tag: byte, v: seq<byte>, rlen: nat): Option<ValueRef>
    requires 0 < |v| <= INT32_MAX && ValSize(tag, v, |v|).Size?
    requires tag == 0xC ==> 4 + AsInt32(ReadU32le(v)) + ID_SIZE <= |v|
  {
    ValSizeLarger(tag, v, |v|, v, |v|);
    if tag == 1 then Some(Double(ReadU64le(v)))
    else if tag == 2 || tag == 0xD || tag == 0xE then
      match ReadString(v, rlen)
      case None => None
      case Some(t) => Some(if tag == 2 then Utf8(t) else if tag == 0xD then Code(t) else Symbol(t))
    else if tag == 3 || tag == 4 then
      var view := match ViewFromData(v) case View(bytes) => bytes case NoView(_) => [];
      Some(if tag == 3 then DocumentRef(view) else ArrayRef(view))
    else if tag == 5 then Some(Binary(v[4], v[5..5 + AsInt32(ReadU32le(v))]))
    else if tag == 6 then Some(Undefined)
    else if tag == 7 then Some(Oid(v[..12]))
    else if tag == 8 then Some(Bool(v[0] != 0))
    else if tag == 9 then Some(DateTime(AsInt64(ReadU64le(v))))
    else if tag == 0xA then Some(Null)
    else if tag == 0xB then
      RegexIsTwoStrings(v);
      var rx := Strlen(v);
      Some(Regex(v[..rx], v[rx + 1..][..Strlen(v[rx + 1..])]))
    else if tag == 0xC then
      var n := AsInt32(ReadU32le(v));
      if n == 0 then None else Some(DbPointer(v[4..4 + n - 1], v[4 + n..4 + n + ID_SIZE]))
    else if tag == 0xF then None
    else if tag == 0x10 then Some(Int32(AsInt32(ReadU32le(v))))
    else if tag == 0x11 then Some(Timestamp(ReadU32le(v), ReadU32le(v[4..])))
    else if tag == 0x12 then Some(Int64(AsInt64(ReadU64le(v))))
    else if tag == 0x13 then Some(Decimal128(v[..16]))
    else if tag == 0x7F then Some(MaxKey)
    else if tag == 0xFF then Some(MinKey)
    else Some(Eod)
  }

  lemma RegexIsTwoStrings(v: seq<byte>)
    requires 0 < |v| <= INT32_MAX && ValSize(TAG_REGEX, v, |v|).Size?
    ensures TwoNuls(v)
  {
    RegexSizeLarger(v, |v|, v, |v|);
  }

  /** What a stored value is read as: of a regular expression, the first two strings. */
  function ReadForm(v: ValueRef): (r: ValueRef)
    ensures r == v <==> NulFree(v)
    ensures TagOf(r) == TagOf(v) && NulFree(r)
  {
    if v.Regex? then
      hide TwoStrings;
      var p := Payload(v);
      RegexStrings(v.regex, v.options);
      var rx := Strlen(p);
      Regex(p[..rx], p[rx + 1..][..Strlen(p[rx + 1..])])
    else v
  }

  /** The values that come back from `ReadTagged`; for the others an assertion fails. */
  predicate ReadsBack(v: ValueRef) {
    match v
    case Utf8(s) => s != []
    case Code(s) => s != []
    case Symbol(s) => s != []
    case CodeWithScope(_, _) => false
    case _ => true
  }

  /**
   Reading a stored value gives the value back, whatever bytes follow it, but for a
   regular expression with NULs, of which it gives the first two strings. Code with
   scope, when it is measured at all, stops the process.
   */
  lemma PayloadReadsBack(v: ValueRef, rest: seq<byte>, rlen: nat)
    requires WellFormed(v) && 0 < |rest|
    requires |Payload(v)| + |rest| <= INT32_MAX && |Payload(v)| < rlen
    ensures var bytes := Payload(v) + rest;
      && (!v.CodeWithScope? ==> ValSize(TagOf(v), bytes, |bytes|).Size?)
      && (ValSize(TagOf(v), bytes, |bytes|).Size? ==>
            && (v.DbPointer? ==> 4 + AsInt32(ReadU32le(bytes)) + ID_SIZE <= |bytes|)
            && ReadTagged(TagOf(v), bytes, rlen) == if ReadsBack(v) then Some(ReadForm(v)) else None)
  {
    hide ReadTagged, ValSize, Delimited, ReadU32le;
    MeasuredAsSpecified(v, rest);
    match v
    case Utf8(s) => TaggedString(v, s, rest, rlen);
    case Code(s) => TaggedString(v, s, rest, rlen);
    case Symbol(s) => TaggedString(v, s, rest, rlen);
    case DocumentRef(view) => TaggedView(v, view, rest, rlen);
    case ArrayRef(view) => TaggedView(v, view, rest, rlen);
    case Binary(_, _) => TaggedBinary(v, rest, rlen);
    case Double(_) => TaggedWord(v, rest, rlen);
    case DateTime(_) => TaggedWord(v, rest, rlen);
    case Int64(_) => TaggedWord(v, rest, rlen);
    case Regex(_, _) => TaggedRegex(v, rest, rlen);
    case DbPointer(_, _) => TaggedDbPointer(v, rest, rlen);
    case CodeWithScope(_, _) => TaggedCodeWithScope(Payload(v) + rest, rlen);
    case _ => TaggedPlain(v, rest, rlen);
  }

  lemma TaggedDbPointer(v: ValueRef, rest: seq<byte>, rlen: nat)
    requires WellFormed(v) && v.DbPointer? && 0 < |rest| && |Payload(v)| + |rest| <= INT32_MAX
    ensures var bytes := Payload(v) + rest;
      && ValSize(0xC, bytes, |bytes|).Size?
      && 4 + AsInt32(ReadU32le(bytes)) + ID_SIZE <= |bytes|
      && ReadTagged(0xC, bytes, rlen) == Some(v)
  {
    hide ValSize, ReadU32le, U32le;
    DbPointerMeasured(v, rest);
    var n, bytes := |v.collection| + 1, Payload(v) + rest;
    ReadWriteU32(n, v.collection + [0] + v.id + rest);
    assert bytes == U32le(n) + (v.collection + [0] + v.id + rest);
    assert bytes[4..4 + n - 1] == v.collection;
    assert bytes[4 + n..4 + n + ID_SIZE] == v.id;
  }

  lemma TaggedCodeWithScope(bytes: seq<byte>, rlen: nat)
    requires 0 < |bytes| <= INT32_MAX
    ensures ValSize(0xF, bytes, |bytes|).Size? ==> ReadTagged(0xF, bytes, rlen) == None
  {
  }

  /** The common premise of most cases of `PayloadReadsBack`. */
  ghost predicate Measured(v: ValueRef, rest: seq<byte>) {
    var bytes := Payload(v) + rest;
    WellFormed(v) && 0 < |rest| && |bytes| <= INT32_MAX && ValSize(TagOf(v), bytes, |bytes|) == Size(|Payload(v)|)
  }

  lemma TaggedString(v: ValueRef, s: seq<byte>, rest: seq<byte>, rlen: nat)
    requires Measured(v, rest) && |Payload(v)| < rlen
    requires v == Utf8(s) || v == Code(s) || v == Symbol(s)
    ensures ReadTagged(TagOf(v), Payload(v) + rest, rlen) == if s != [] then Some(v) else None
  {
    hide ValSize;
    StringReadsBack(s, rest);
  }

  lemma TaggedView(v: ValueRef, view: seq<byte>, rest: seq<byte>, rlen: nat)
    requires Measured(v, rest) && (v == DocumentRef(view) || v == ArrayRef(view))
    ensures ReadTagged(TagOf(v), Payload(v) + rest, rlen) == Some(v)
  {
    hide ValSize, ViewFromData, IsView;
    ViewReadsBack(view, rest);
  }

  lemma TaggedBinary(v: ValueRef, rest: seq<byte>, rlen: nat)
    requires Measured(v, rest) && v.Binary?
    ensures ReadTagged(TagOf(v), Payload(v) + rest, rlen) == Some(v)
  {
    hide ValSize, ReadU32le, U32le;
    var bytes := Payload(v) + rest;
    ReadWriteU32(|v.data|, [v.subtype] + v.data + rest);
    assert bytes == U32le(|v.data|) + ([v.subtype] + v.data + rest);
    assert bytes[5..5 + |v.data|] == v.data;
  }

  lemma TaggedWord(v: ValueRef, rest: seq<byte>, rlen: nat)
    requires Measured(v, rest) && (v.Double? || v.DateTime? || v.Int64?)
    ensures ReadTagged(TagOf(v), Payload(v) + rest, rlen) == Some(v)
  {
    hide ValSize, ReadU64le, U64le;
    ReadWriteU64(if v.Double? then v.bits else if v.DateTime? then v.ms else v.i, rest);
  }

  lemma TaggedRegex(v: ValueRef, rest: seq<byte>, rlen: nat)
    requires WellFormed(v) && v.Regex? && 0 < |rest| && |Payload(v)| + |rest| <= INT32_MAX
    ensures ValSize(0xB, Payload(v) + rest, |Payload(v) + rest|).Size?
    ensures ReadTagged(0xB, Payload(v) + rest, rlen) == Some(ReadForm(v))
  {
    hide ValSize, Strlen, TwoNuls, Payload, TwoStrings;
    RegexMeasured(v, rest);
    SameTwoStrings(Payload(v), rest);
  }

  lemma TaggedPlain(v: ValueRef, rest: seq<byte>, rlen: nat)
    requires Measured(v, rest)
    requires match v
      case Undefined => true case Oid(_) => true case Bool(_) => true case Null => true case Eod => true
      case Int32(_) => true case Timestamp(_, _) => true case Decimal128(_) => true case MaxKey => true
      case MinKey => true case _ => false
    ensures ReadTagged(TagOf(v), Payload(v) + rest, rlen) == Some(v)
  {
    hide ValSize, ReadU32le, U32le;
    var bytes := Payload(v) + rest;
    match v
    case Int32(i) => ReadWriteInt32(i, rest);
    case Timestamp(increment, seconds) =>
      ReadWriteU32(increment, U32le(seconds) + rest);
      ReadWriteU32(seconds, rest);
      assert bytes == U32le(increment) + (U32le(seconds) + rest);
      assert bytes[4..] == U32le(seconds) + rest;
    case Oid(id) => assert bytes[..12] == id;
    case Decimal128(d) => assert bytes[..16] == d;
    case _ =>
  }

  lemma StringReadsBack(s: seq<byte>, rest: seq<byte>)
    requires |s| < INT32_MAX
    ensures var v := StringBytes(s) + rest;
      |v| >= 5 + |s| && AsInt32(ReadU32le(v)) == |s| + 1 && v[4..4 + |s|] == s
  {
    StringDelimited(s, rest);
  }

  lemma ViewReadsBack(view: seq<byte>, rest: seq<byte>)
    requires IsView(view)
    ensures ViewFromData(view + rest) == View(view)
  {
    var b := view + rest;
    assert b[0] == view[0] && b[1] == view[1] && b[2] == view[2] && b[3] == view[3];
    assert b[..|view|] == view;
  }

  /** Bytes behind two NUL-terminated strings do not change the strings. */
  lemma SameTwoStrings(p: seq<byte>, rest: seq<byte>)
    requires TwoNuls(p)
    ensures var v, rx := p + rest, Strlen(p);
      && TwoNuls(v) && Strlen(v) == rx && v[..rx] == p[..rx]
      && Strlen(v[rx + 1..]) == Strlen(p[rx + 1..])
      && v[rx + 1..][..Strlen(p[rx + 1..])] == p[rx + 1..][..Strlen(p[rx + 1..])]
  {
    var v, rx := p + rest, Strlen(p);
    StrnlenPrefix(p, |p|, v, |v|);
    assert v[rx + 1..] == p[rx + 1..] + rest;
    StrnlenPrefix(p[rx + 1..], |p| - rx - 1, v[rx + 1..], |v| - rx - 1);
  }

  // ----- values inside a document

  /** The leaf that stores a value, with `pad` between the value and the next element. */
  function Stored(v: ValueRef, pad: seq<byte>): Node {
    Leaf(TagOf(v), Payload(v) + pad)
  }

  /** The size the reader gives to a stored value other than code with scope. */
  function MeasuredSize(v: ValueRef): (n: int)
    ensures n == |Payload(v)| <==> !v.DbPointer? && NulFree(v)
    ensures v.DbPointer? ==> n == |Payload(v)| - 4
  {
    hide Payload, TwoNuls, TwoStrings, NulFree;
    NulFreeUnlessRegex(v);
    if v.Regex? then
      RegexPayload(v);
      TwoStrings(Payload(v))
    else |Payload(v)| - if v.DbPointer? then 4 else 0
  }

  /**
   Insert/read agreement: at the position of an element that stores a value, padded or
   not, the reader finds the element, its key and its value, in any surrounding memory;
   and it goes on behind the value, or four bytes before its end for a dbpointer. A
   regular expression is read, and measured, by its first two strings.
   */
  lemma StoredValueIsRead(mem: seq<byte>, base: nat, es: seq<Element>, k: nat, v: ValueRef, pad: seq<byte>)
    requires Holds(mem, base, es) && |EncodeDoc(es)| <= INT32_MAX && k < |es|
    requires es[k].node == Stored(v, pad) && 0 !in es[k].key && (pad == [] || v.Regex?)
    requires WellFormed(v) && !v.CodeWithScope?
    ensures pad == [] && !v.DbPointer? && NulFree(v) ==> ReadableElement(es[k])
    ensures var it := IterFor(es, k, base);
      && Produced(mem, it) && !Stop(it)
      && DataSize(mem, it) == |es[k].key| + 2 + MeasuredSize(v)
      && Key(mem, it) == es[k].key
      && ReadStaysInside(mem, it)
      && ReadValue(mem, it) == if ReadsBack(v) then Some(ReadForm(v)) else None
  {
    hide EncodeList, EncodeElement, Payload, Delimited, ValSize, ReadTagged, WellFormed, ReadsBack, IsView, ReadU32le;
    hide ReadForm, MeasuredSize, NulFree, ReadableElement;
    var it := IterFor(es, k, base);
    var rest := EncodeList(es[k + 1..]) + [0];
    PaddedRead(mem, base, es, k, v, pad);
    TailOfDoc(mem, base, es, k);
    EncodeListPickTail(es, k);
    var s := mem[it.pos..it.pos + it.rlen];
    StoredBytes(es[k], v, pad, rest);
    assert s == EncodeElement(es[k]) + rest;
    assert s[0] == TagOf(v) && s[it.keylen + 2..] == Payload(v) + (pad + rest);
    assert mem[it.pos] == s[0];
    PayloadReadsBack(v, pad + rest, it.rlen);
    NotDbPointer(v);
    StoredReadable(es[k], v, pad);
  }

  lemma StoredReadable(e: Element, v: ValueRef, pad: seq<byte>)
    requires e.node == Stored(v, pad) && 0 !in e.key && WellFormed(v) && !v.CodeWithScope?
    ensures pad == [] && !v.DbPointer? && NulFree(v) ==> ReadableElement(e)
  {
    hide Payload, Delimited, WellFormed, NulFree;
    KindsDelimited(v);
    assert Payload(v) + [] == Payload(v);
  }

  /** The iterator part of `StoredValueIsRead`. */
  lemma PaddedRead(mem: seq<byte>, base: nat, es: seq<Element>, k: nat, v: ValueRef, pad: seq<byte>)
    requires Holds(mem, base, es) && |EncodeDoc(es)| <= INT32_MAX && k < |es|
    requires es[k].node == Stored(v, pad) && 0 !in es[k].key && (pad == [] || v.Regex?)
    requires WellFormed(v) && !v.CodeWithScope?
    ensures |Payload(v)| + |pad| + |EncodeList(es[k + 1..])| + 1 <= INT32_MAX
    ensures var it := IterFor(es, k, base);
      && Produced(mem, it) && !Stop(it)
      && DataSize(mem, it) == |es[k].key| + 2 + MeasuredSize(v)
      && Key(mem, it) == es[k].key
  {
    hide EncodeList, Payload, Delimited, ValSize, WellFormed, IsView, ReadU32le;
    EncodeListPick(es, k);
    ElementBytes(es[k]);
    var rest := EncodeList(es[k + 1..]) + [0];
    if v.DocumentRef? || v.ArrayRef? {
      KindsDelimited(v);
      assert Payload(v) + [] == Payload(v);
      IteratorAtBoundary(mem, base, es, k);
    } else {
      MeasuredAsSpecified(v, pad + rest);
      assert Payload(v) + pad + rest == Payload(v) + (pad + rest);
      MeasuredAtBoundary(mem, base, es, k, MeasuredSize(v));
    }
  }

  lemma StoredBytes(e: Element, v: ValueRef, pad: seq<byte>, rest: seq<byte>)
    requires e.node == Stored(v, pad)
    ensures var s := EncodeElement(e) + rest;
      && |s| == |e.key| + 2 + |Payload(v)| + |pad| + |rest|
      && s[0] == TagOf(v) && s[|e.key| + 2..] == Payload(v) + (pad + rest)
  {
  }

  lemma NotDbPointer(v: ValueRef)
    ensures TagOf(v) == 0xC <==> v.DbPointer?
  {
  }
}
