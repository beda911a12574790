/**
 Byte-level memory operations of `include/bson/detail/mem.h`: little-endian
 integers, copies, overlapping moves and fills, each method proved against a
 sequence function that the rest of the project reasons with.
 */
module Bytes {

  type byte = x: int | 0 <= x < 256
  type uint32 = x: int | 0 <= x < 0x1_0000_0000
  type uint64 = x: int | 0 <= x < 0x1_0000_0000_0000_0000

  const INT32_MAX := 0x7FFF_FFFF
  const INT32_MIN := -0x8000_0000

  // ----- little-endian integers

  function U32le(n: int): (s: seq<byte>)
    ensures |s| == 4
  {
    [n % 256, n / 256 % 256, n / 65536 % 256, n / 16777216 % 256]
  }

  function ReadU32le(s: seq<byte>): uint32
    requires |s| >= 4
  {
    s[0] as int + 256 * (s[1] as int) + 65536 * (s[2] as int) + 16777216 * (s[3] as int)
  }

  /** The cast `(int32_t)u32` of a two's complement machine. */
  function AsInt32(u: uint32): (i: int)
  {
    if u <= INT32_MAX then u else u - 0x1_0000_0000
  }

  function U64le(n: int): (s: seq<byte>)
    ensures |s| == 8
  {
    U32le(n) + U32le(n / 0x1_0000_0000)
  }

  function ReadU64le(s: seq<byte>): (u: uint64)
    requires |s| >= 8
  {
    ReadU32le(s) as int + 0x1_0000_0000 * (ReadU32le(s[4..]) as int)
  }

  function AsInt64(u: uint64): (i: int)
  {
    if u < 0x8000_0000_0000_0000 then u else u - 0x1_0000_0000_0000_0000
  }

  /** Reading back what was written gives the number modulo the word size. */
  lemma ReadWriteU32(n: int, rest: seq<byte>)
    ensures ReadU32le(U32le(n) + rest) == n % 0x1_0000_0000
    ensures 0 <= n < 0x1_0000_0000 ==> ReadU32le(U32le(n) + rest) == n
  {
    var s := U32le(n) + rest;
    assert s[0] == n % 256 && s[1] == n / 256 % 256;
    assert s[2] == n / 65536 % 256 && s[3] == n / 16777216 % 256;
    assert n / 65536 == n / 256 / 256 && n / 16777216 == n / 65536 / 256;
  }

  /** Writing what was read gives back the same four bytes. */
  lemma WriteReadU32(s: seq<byte>)
    requires |s| >= 4
    ensures U32le(ReadU32le(s)) == s[..4]
  {
    var m3: int := s[3];
    var m2: int := s[2] + 256 * m3;
    var m1: int := s[1] + 256 * m2;
    var n: int := s[0] + 256 * m1;
    DigitOut(s[2], m3);
    DigitOut(s[1], m2);
    DigitOut(s[0], m1);
    assert n / 65536 == m2 && n / 16777216 == m3;
  }

  lemma DigitOut(low: byte, high: nat)
    ensures (low as int + 256 * high) % 256 == low && (low as int + 256 * high) / 256 == high
  {
  }

  lemma ReadWriteU64(n: int, rest: seq<byte>)
    ensures ReadU64le(U64le(n) + rest) == n % 0x1_0000_0000_0000_0000
  {
    var hi := n / 0x1_0000_0000;
    ReadWriteU32(n, U32le(hi) + rest);
    ReadWriteU32(hi, rest);
    assert U64le(n) + rest == U32le(n) + (U32le(hi) + rest);
    assert (U64le(n) + rest)[4..] == U32le(hi) + rest;
    SplitWord(n);
  }

  lemma SplitWord(n: int)
    ensures n % 0x1_0000_0000_0000_0000
         == n % 0x1_0000_0000 + 0x1_0000_0000 * (n / 0x1_0000_0000 % 0x1_0000_0000)
  {
    var hi := n / 0x1_0000_0000;
    var top := hi / 0x1_0000_0000;
    var low := n % 0x1_0000_0000 + 0x1_0000_0000 * (hi % 0x1_0000_0000);
    assert n == 0x1_0000_0000_0000_0000 * top + low && 0 <= low < 0x1_0000_0000_0000_0000;
  }

  lemma ReadWriteInt32(i: int, rest: seq<byte>)
    requires INT32_MIN <= i <= INT32_MAX
    ensures AsInt32(ReadU32le(U32le(i) + rest)) == i
  {
    ReadWriteU32(i, rest);
  }

  // ----- writing into memory

  /** `b` with the `nDelete` bytes at `at` replaced by `ins`. */
  function Splice(b: seq<byte>, at: nat, nDelete: nat, ins: seq<byte>): (r: seq<byte>)
    requires at + nDelete <= |b|
    ensures |r| == |b| - nDelete + |ins|
  {
    b[..at] + ins + b[at + nDelete..]
  }

  /** `b` with the bytes at `at` overwritten by `w`. */
  function Patch(b: seq<byte>, at: nat, w: seq<byte>): (r: seq<byte>)
    requires at + |w| <= |b|
    ensures |r| == |b|
  {
    Splice(b, at, |w|, w)
  }

  method WriteU32le(a: array<byte>, at: nat, n: int) returns (end: nat)
    requires at + 4 <= a.Length
    modifies a
    ensures a[..] == Patch(old(a[..]), at, U32le(n))
    ensures end == at + 4
  {
    a[at] := n % 256;
    a[at + 1] := n / 256 % 256;
    a[at + 2] := n / 65536 % 256;
    a[at + 3] := n / 16777216 % 256;
    end := at + 4;
  }

  method WriteU64le(a: array<byte>, at: nat, n: int) returns (end: nat)
    requires at + 8 <= a.Length
    modifies a
    ensures a[..] == Patch(old(a[..]), at, U64le(n))
    ensures end == at + 8
  {
    end := WriteU32le(a, at, n);
    end := WriteU32le(a, end, n / 0x1_0000_0000);
  }

  /** Copy bytes from memory that is disjoint from `a`. */
  method Memcpy(a: array<byte>, dst: nat, src: seq<byte>) returns (end: nat)
    requires dst + |src| <= a.Length
    modifies a
    ensures a[..] == Patch(old(a[..]), dst, src)
    ensures end == dst + |src|
  {
    var n := 0;
    while n < |src|
      invariant n <= |src|
      invariant a[..dst] == old(a[..dst])
      invariant a[dst..dst + n] == src[..n]
      invariant a[dst + n..] == old(a[dst + n..])
    {
      a[dst + n] := src[n];
      n := n + 1;
    }
    end := dst + |src|;
  }

  /** Move bytes within `a`; the two ranges may overlap. */
  method Memmove(a: array<byte>, dst: nat, src: nat, len: nat) returns (end: nat)
    requires dst + len <= a.Length && src + len <= a.Length
    modifies a
    ensures a[..] == Patch(old(a[..]), dst, old(a[..])[src..src + len])
    ensures end == dst + len
  {
    if src < dst {
      MoveUp(a, dst, src, len);
    } else {
      MoveDown(a, dst, src, len);
    }
    assert a[..][dst..dst + len] == old(a[..])[src..src + len];
    end := dst + len;
  }

  method MoveUp(a: array<byte>, dst: nat, src: nat, len: nat)
    requires src < dst && dst + len <= a.Length
    modifies a
    ensures a[..dst] == old(a[..dst]) && a[dst + len..] == old(a[dst + len..])
    ensures a[dst..dst + len] == old(a[src..src + len])
  {
    var n := len;
    while n > 0
      invariant 0 <= n <= len
      invariant forall k :: 0 <= k < dst + n || dst + len <= k < a.Length ==> a[k] == old(a[k])
      invariant forall k :: dst + n <= k < dst + len ==> a[k] == old(a[k - dst + src])
    {
      n := n - 1;
      a[dst + n] := a[src + n];
    }
    ghost var to, from := a[dst..dst + len], old(a[src..src + len]);
    forall k | 0 <= k < len
      ensures to[k] == from[k]
    {
      assert a[dst + k] == old(a[dst + k - dst + src]);
    }
  }

  method MoveDown(a: array<byte>, dst: nat, src: nat, len: nat)
    requires dst <= src && src + len <= a.Length
    modifies a
    ensures a[..dst] == old(a[..dst]) && a[dst + len..] == old(a[dst + len..])
    ensures a[dst..dst + len] == old(a[src..src + len])
  {
    var n := 0;
    while n < len
      invariant 0 <= n <= len
      invariant forall k :: 0 <= k < dst || dst + n <= k < a.Length ==> a[k] == old(a[k])
      invariant forall k :: dst <= k < dst + n ==> a[k] == old(a[k - dst + src])
    {
      a[dst + n] := a[src + n];
      n := n + 1;
    }
    ghost var to, from := a[dst..dst + len], old(a[src..src + len]);
    forall k | 0 <= k < len
      ensures to[k] == from[k]
    {
      assert a[dst + k] == old(a[dst + k - dst + src]);
    }
  }

  function Repeat(v: byte, len: nat): (s: seq<byte>)
    ensures |s| == len
    ensures forall k :: 0 <= k < len ==> s[k] == v
  {
    seq(len, _ => v)
  }

  method Memset(a: array<byte>, dst: nat, v: byte, len: nat) returns (end: nat)
    requires dst + len <= a.Length
    modifies a
    ensures a[..] == Patch(old(a[..]), dst, Repeat(v, len))
    ensures end == dst + len
  {
    var n := 0;
    while n < len
      invariant n <= len
      invariant a[..dst] == old(a[..dst])
      invariant a[dst..dst + n] == Repeat(v, n)
      invariant a[dst + n..] == old(a[dst + n..])
    {
      a[dst + n] := v;
      n := n + 1;
    }
    assert a[dst..dst + len] == Repeat(v, len);
    end := dst + len;
  }
}
