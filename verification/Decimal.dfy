/**
 Decimal spelling of array indices (`_bson_write_uint` and `bson_u32_string_create`
 in `include/bson/mut.h`, `_ndigits` in `include/bson/make.hpp`).
 */
module Decimal {
  import opened Bytes

  const ZERO: byte := '0' as int

  function Spell(v: nat): (s: seq<byte>)
    ensures |s| > 0 && 0 !in s
  {
    if v < 10 then [ZERO + v] else Spell(v / 10) + [ZERO + v % 10]
  }

  /** The number that a string of digits denotes. */
  function Value(s: seq<byte>): int {
    if s == [] then 0 else 10 * Value(s[..|s| - 1]) + s[|s| - 1] as int - ZERO as int
  }

  /** The spelling consists of digits, has no leading zero and denotes the number. */
  lemma {:induction false} SpellingDenotes(v: nat)
    ensures Value(Spell(v)) == v
    ensures forall k :: 0 <= k < |Spell(v)| ==> '0' as int <= Spell(v)[k] <= '9' as int
    ensures v != 0 ==> Spell(v)[0] != ZERO
  {
    if v < 10 {
      assert Spell(v)[..0] == [];
      assert Value([]) == 0;
    } else {
      SpellingDenotes(v / 10);
      assert Spell(v)[..|Spell(v)| - 1] == Spell(v / 10);
    }
  }

  lemma SpellingInjective(v: nat, w: nat)
    requires Spell(v) == Spell(w)
    ensures v == w
  {
    SpellingDenotes(v);
    SpellingDenotes(w);
  }

  /** `_ndigits`, by its loop. */
  method NumDigits(nth: nat) returns (n: nat)
    ensures n == |Spell(nth)|
  {
    if nth == 0 {
      return 1;
    }
    n := 0;
    var rest := nth;
    while rest > 0
      invariant n + (if rest > 0 then |Spell(rest)| else 0) == |Spell(nth)|
    {
      n := n + 1;
      rest := rest / 10;
    }
  }

  function Pow10(n: nat): nat {
    if n == 0 then 1 else 10 * Pow10(n - 1)
  }

  /** The spelling has `n` digits or fewer exactly when the number is below 10^n. */
  lemma {:induction false} SpellingLength(v: nat, n: nat)
    requires n > 0
    ensures |Spell(v)| <= n <==> v < Pow10(n)
  {
    if n == 1 {
      assert Pow10(1) == 10 * Pow10(0) == 10;
      assert v >= 10 ==> |Spell(v / 10)| > 0;
    } else if v >= 10 {
      SpellingLength(v / 10, n - 1);
      var p := Pow10(n - 1);
      assert v / 10 < p <==> v < 10 * p;
    } else {
      assert Pow10(n) == 10 * Pow10(n - 1);
      PowPositive(n - 1);
    }
  }

  lemma {:induction false} PowPositive(n: nat)
    ensures Pow10(n) >= 1
  {
    if n > 0 {
      PowPositive(n - 1);
    }
  }

  lemma Uint32Length(v: uint32)
    ensures |Spell(v)| <= 10
  {
    SpellingLength(v, 10);
    assert Pow10(10) == 10_000_000_000 by {
      assert Pow10(5) == 100_000;
      assert Pow10(7) == 100 * Pow10(5);
      assert Pow10(9) == 100 * Pow10(7);
    }
  }

  /** `_bson_write_uint`: the digits and a terminator. */
  method WriteUint(v: uint32, buf: array<byte>, at: nat) returns (end: nat)
    requires at + |Spell(v)| < buf.Length
    modifies buf
    ensures buf[..] == Patch(old(buf[..]), at, Spell(v) + [0])
    ensures end == at + |Spell(v)|
    decreases v
  {
    hide Patch;
    ghost var before := buf[..];
    if v == 0 {
      end := Memcpy(buf, at, [ZERO]);
    } else if v >= 10 {
      if v < 100 {
        end := Memcpy(buf, at, [ZERO + v / 10]);
        assert Spell(v / 10) == [ZERO + v / 10];
        Extend(before, at, Spell(v / 10), [], [ZERO + v % 10]);
      } else {
        end := WriteUint(v / 10, buf, at);
        Extend(before, at, Spell(v / 10), [0], [ZERO + v % 10]);
      }
      end := Memcpy(buf, end, [ZERO + v % 10]);
    } else {
      end := Memcpy(buf, at, [ZERO + v]);
    }
    Extend(before, at, Spell(v), [], [0]);
    var past := Memcpy(buf, end, [0]);
  }

  lemma Extend(a: seq<byte>, at: nat, s: seq<byte>, over: seq<byte>, t: seq<byte>)
    requires at + |s| + |t| <= |a| && |over| <= |t|
    ensures s + [] == s
    ensures Patch(Patch(a, at, s + over), at + |s|, t) == Patch(a, at, s + t)
  {
  }

  /** `bson_u32_string_create`, read back as a C string. */
  method U32String(v: uint32) returns (s: seq<byte>)
    ensures s == Spell(v)
  {
    Uint32Length(v);
    var buf := new byte[11];
    var end := WriteUint(v, buf, 0);
    s := buf[..end];
  }
}
