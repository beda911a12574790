/**
 The storage of a document (`include/bson/doc.h`): one allocation that holds a
 four-byte capacity cookie followed by the document, shared with every other
 empty document until the first write that needs room.
 */
module Storage {
  import opened Bytes

  const COOKIE := 4

  /** A `bson_byte*`: a position in one allocation. */
  datatype Ptr = Ptr(buf: array<byte>, at: nat)

  /** The static bytes behind every empty document: capacity 5, then an empty document. */
  const EMPTY_IMAGE: seq<byte> := [5, 0, 0, 0, 5, 0, 0, 0, 0]

  /**
   The allocator contract of `mlib_reallocate`: it may refuse, leaving the old
   region untouched, or give a region at least as large as requested that begins
   with the old bytes.
   */
  method Reallocate(prev: array?<byte>, want: nat) returns (region: array?<byte>)
    requires want <= INT32_MAX && (prev != null ==> prev.Length <= want)
    ensures region != null ==> fresh(region) && want <= region.Length <= INT32_MAX
    ensures region != null && prev != null ==> region[..prev.Length] == prev[..]
  {
    if * {
      return null;
    }
    var got: nat :| want <= got <= INT32_MAX;
    region := new byte[got];
    if prev != null {
      var end := Memcpy(region, 0, prev[..]);
    }
  }

  class Doc {
    /** The static empty document of the program. */
    const empty: array<byte>
    /** The allocation; `_bson_document_data` is `buf + 4`. */
    var buf: array<byte>

    ghost predicate Valid()
      reads this, buf, empty
    {
      && empty[..] == EMPTY_IMAGE
      && 9 <= buf.Length <= INT32_MAX
      && Capacity() + COOKIE == buf.Length
      && 5 <= Size() <= Capacity()
    }

    /** Whether the document still uses the static bytes, to which no program may write. */
    predicate Shared()
      reads this
    {
      buf == empty
    }

    /** `bson_doc_capacity`. */
    function Capacity(): uint32
      requires 9 <= buf.Length
      reads this, buf
    {
      ReadU32le(buf[..])
    }

    /** `bson_size`. */
    function Size(): uint32
      requires 9 <= buf.Length
      reads this, buf
    {
      ReadU32le(buf[..][4..])
    }

    /** The document proper. */
    ghost function Contents(): (s: seq<byte>)
      requires Valid()
      reads this, buf, empty
      ensures |s| == Size()
    {
      buf[..][4..4 + Size()]
    }

    /** `bson_new()`: no allocation, the shared empty document. */
    constructor (empty: array<byte>)
      requires empty[..] == EMPTY_IMAGE
      ensures Valid() && this.empty == empty && buf == empty
      ensures Contents() == [5, 0, 0, 0, 0]
    {
      this.empty := empty;
      this.buf := empty;
      new;
      ImageFacts(buf);
    }

    /** `_bson_realloc`. */
    method Realloc(newSize: uint32) returns (ok: bool)
      requires Valid() && newSize > Capacity()
      modifies `buf
      ensures Valid()
      ensures !ok ==> buf == old(buf)
      ensures ok ==> fresh(buf) && newSize <= Capacity() && Contents() == old(Contents())
    {
      hide U32le, Repeat, Splice, Patch;
      if newSize > INT32_MAX - COOKIE {
        return false;
      }
      var prev: array?<byte> := if buf == empty then null else buf;
      var region := Reallocate(prev, newSize + COOKIE);
      if region == null {
        return false;
      }
      ghost var contents := Contents();
      if prev == null {
        ImageFacts(buf);
      } else {
        SamePrefix(region[..], buf[..], 4, 4 + Size());
        SliceOfTail(region[..], 4, 4 + Size());
      }
      ghost var tail := region[..][4..];
      var image := empty[4..9];
      buf := region;
      WriteCookie(region);
      if prev == null {
        // A region used for the first time starts out as an empty document.
        WriteImage(region, image);
      }
      if prev != null {
        assert region[..][4..] == tail;
        SliceOfTail(region[..], 4, 4 + |contents|);
      }
      assert region[..][4..4 + |contents|] == contents;
      SameHeader(region, contents, region.Length - COOKIE);
      ok := true;
    }

    /** `bson_doc_reserve`: the new capacity, or a negative number. */
    method Reserve(size: uint32) returns (r: int)
      requires Valid()
      modifies `buf
      ensures Valid()
      ensures r < 0 ==> buf == old(buf) && size > old(Capacity())
      ensures r >= 0 ==> r == Capacity() && size <= r && Contents() == old(Contents())
      ensures size <= old(Capacity()) ==> r >= 0
      ensures buf == old(buf) || fresh(buf)
    {
      if Capacity() >= size {
        return Capacity();
      }
      var ok := Realloc(size);
      if !ok {
        return -1;
      }
      return Capacity();
    }
  }

  /**
   `_bson_new`: an empty document. When the allocator refuses the reservation, the
   negative result is taken for success, and the static bytes that the document is left
   on are cleared, to what they were.
   */
  method NewDocument(empty: array<byte>, reserve: uint32) returns (d: Doc, reserved: bool)
    requires empty[..] == EMPTY_IMAGE
    modifies empty
    ensures fresh(d) && d.Valid() && d.empty == empty && (d.Shared() || fresh(d.buf))
    ensures d.Contents() == [5, 0, 0, 0, 0]
    ensures reserved <==> reserve <= d.Capacity()
    ensures d.Shared() <==> reserve <= 5 || !reserved
  {
    d := new Doc(empty);
    reserved := true;
    ImageFacts(empty);
    if reserve > 5 {
      var r := d.Reserve(reserve);
      reserved := r >= 0;
      ClearDocument(d);
    }
  }

  /** The document's room is zeroed, and its length set to that of an empty document. */
  method ClearDocument(d: Doc)
    requires d.Valid() && (d.Shared() || d.buf != d.empty)
    modifies d.buf
    ensures d.Valid() && d.Contents() == [5, 0, 0, 0, 0] && d.Capacity() == old(d.Capacity())
  {
    hide ReadU32le, Patch;
    ghost var before := d.buf[..];
    if d.Shared() {
      ImageFacts(d.buf);
    }
    var end := Memset(d.buf, COOKIE, 0, d.Capacity());
    end := Memcpy(d.buf, COOKIE, [5]);
    ClearedBytes(before);
    ghost var tail := [5] + Repeat(0, d.buf.Length - COOKIE)[1..];
    assert tail[..5] == [5, 0, 0, 0, 0];
    CookieKept(before, tail);
    SliceOfTail(before[..4] + tail, 4, 9);
    assert (before[..4] + tail)[4..] == tail;
    assert d.buf == d.empty ==> d.buf[..] == EMPTY_IMAGE;
  }

  lemma ClearedBytes(before: seq<byte>)
    requires |before| >= 5
    ensures Patch(Patch(before, COOKIE, Repeat(0, |before| - COOKIE)), COOKIE, [5])
         == before[..4] + ([5] + Repeat(0, |before| - COOKIE)[1..])
  {
  }

  lemma CookieKept(before: seq<byte>, tail: seq<byte>)
    requires 4 <= |before| && 5 <= |tail| && tail[..4] == [5, 0, 0, 0]
    ensures ReadU32le(before[..4] + tail) == ReadU32le(before)
    ensures ReadU32le((before[..4] + tail)[4..]) == 5
  {
    assert (before[..4] + tail)[4..] == tail;
    assert tail[0] == tail[..4][0] && tail[1] == tail[..4][1] && tail[2] == tail[..4][2] && tail[3] == tail[..4][3];
  }

  method WriteCookie(region: array<byte>)
    requires 9 <= region.Length <= INT32_MAX
    modifies region
    ensures region[..4] == U32le(region.Length - COOKIE) && region[4..] == old(region[4..])
  {
    var end := WriteU32le(region, 0, region.Length - COOKIE);
    assert region[..] == U32le(region.Length - COOKIE) + old(region[..])[4..];
  }

  method WriteImage(region: array<byte>, image: seq<byte>)
    requires 9 <= region.Length && |image| == 5
    modifies region
    ensures region[..4] == old(region[..4]) && region[4..9] == image
  {
    var end := Memcpy(region, 4, image);
    assert region[..] == old(region[..])[..4] + image + old(region[..])[9..];
  }

  lemma SamePrefix(a: seq<byte>, b: seq<byte>, i: nat, j: nat)
    requires b <= a && i <= j <= |b|
    ensures a[i..j] == b[i..j]
  {
    forall k | 0 <= k < j - i
      ensures a[i..j][k] == b[i..j][k]
    {
      assert a[i + k] == b[i + k];
    }
  }

  lemma SliceOfTail(a: seq<byte>, i: nat, j: nat)
    requires i <= j <= |a|
    ensures a[i..j] == a[i..][..j - i]
  {
  }

  lemma ImageFacts(a: array<byte>)
    requires a[..] == EMPTY_IMAGE
    ensures a.Length == 9 && ReadU32le(a[..]) == 5 && ReadU32le(a[..][4..]) == 5
    ensures a[4..9] == a[..][4..9] == [5, 0, 0, 0, 0]
  {
  }

  /** A region that begins with a cookie and a document has the document's size. */
  lemma SameHeader(a: array<byte>, contents: seq<byte>, capacity: nat)
    requires 4 <= |contents| && 4 + |contents| <= a.Length && capacity < 0x1_0000_0000
    requires a[..][4..4 + |contents|] == contents && a[..4] == U32le(capacity)
    ensures ReadU32le(a[..][4..]) == ReadU32le(contents)
    ensures ReadU32le(a[..]) == capacity
  {
    assert forall k :: 0 <= k < 4 ==> a[..][4..][k] == contents[k];
    ReadWriteU32(capacity, a[4..]);
    assert a[..] == a[..4] + a[4..];
  }
}
