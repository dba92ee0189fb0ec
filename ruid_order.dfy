/**
  * The comparison functions (src/ruid.c:228-310): `ruid_internal_cmp` is
  * `memcmp` over the 16 bytes, and each operator is a sign test on it. The
  * order is proved to be the order of the bytes read as one big-endian
  * number, and so a total order; `ruid_hash` is `hash_any` of the bytes,
  * taken as a parameter.
  */
module RuidOrder {
  import opened Bytes
  import opened RuidTypes

  type int32 = x: int | -0x8000_0000 <= x < 0x8000_0000

  /**
    * `memcmp`: the difference of the first pair of bytes that differ, as
    * unsigned values, or 0 when there is none. Only the sign of the result is
    * specified by the C library; the lemmas below state nothing more.
    */
  function MemCmp(a: seq<byte>, b: seq<byte>): (d: int)
    requires |a| == |b|
    ensures -255 <= d <= 255
    decreases |a|
  {
    if a == [] then 0
    else if a[0] != b[0] then a[0] as int - b[0] as int
    else MemCmp(a[1..], b[1..])
  }

  function Pow256(n: nat): (p: nat)
    ensures p > 0
  {
    if n == 0 then 1 else 256 * Pow256(n - 1)
  }

  /** The bytes read as one unsigned big-endian number: the reference order. */
  function BigEndianValue(s: seq<byte>): (n: nat)
    decreases |s|
  {
    if s == [] then 0 else s[0] * Pow256(|s| - 1) + BigEndianValue(s[1..])
  }

  /** `n` bytes hold a number below 256 to the `n`. */
  lemma {:induction false} NatBound(s: seq<byte>)
    ensures BigEndianValue(s) < Pow256(|s|)
    decreases |s|
  {
    if s != [] {
      NatBound(s[1..]);
      var p := Pow256(|s| - 1);
      MulMonotone(s[0] as int + 1, 256, p);
      assert s[0] * p + p == (s[0] as int + 1) * p;
    }
  }

  lemma MulMonotone(x: nat, y: nat, p: nat)
    requires x <= y
    ensures x * p <= y * p
  {
  }

  /** Bytes equal up to a differing one: the lower byte gives the lower number, whatever follows. */
  lemma FirstByteDecides(a: seq<byte>, b: seq<byte>)
    requires |a| == |b| > 0 && a[0] < b[0]
    ensures BigEndianValue(a) < BigEndianValue(b)
  {
    var p := Pow256(|a| - 1);
    NatBound(a[1..]);
    assert BigEndianValue(a) < a[0] * p + p;
    assert a[0] * p + p == (a[0] as int + 1) * p;
    MulMonotone(a[0] as int + 1, b[0], p);
  }

  /** The sign of `memcmp` is the order of the numbers: it is unsigned lexicographic order. */
  lemma {:induction false} MemCmpIsNumericOrder(a: seq<byte>, b: seq<byte>)
    requires |a| == |b|
    ensures MemCmp(a, b) < 0 <==> BigEndianValue(a) < BigEndianValue(b)
    ensures MemCmp(a, b) == 0 <==> BigEndianValue(a) == BigEndianValue(b)
    ensures MemCmp(a, b) > 0 <==> BigEndianValue(a) > BigEndianValue(b)
    decreases |a|
  {
    if a != [] {
      if a[0] < b[0] {
        FirstByteDecides(a, b);
      } else if a[0] > b[0] {
        FirstByteDecides(b, a);
      } else {
        MemCmpIsNumericOrder(a[1..], b[1..]);
      }
    }
  }

  /** `memcmp` is 0 exactly on equal contents. */
  lemma {:induction false} MemCmpZeroIff(a: seq<byte>, b: seq<byte>)
    requires |a| == |b|
    ensures MemCmp(a, b) == 0 <==> a == b
    decreases |a|
  {
    if a != [] && a[0] == b[0] {
      MemCmpZeroIff(a[1..], b[1..]);
      if a[1..] == b[1..] {
        assert a == [a[0]] + a[1..] && b == [b[0]] + b[1..];
      }
    }
  }

  /** The unsigned lexicographic order spelled out: equal up to some byte, which is lower. */
  lemma {:induction false} MemCmpIsLexicographic(a: seq<byte>, b: seq<byte>)
    requires |a| == |b|
    ensures MemCmp(a, b) < 0 <==> exists k :: 0 <= k < |a| && a[..k] == b[..k] && a[k] < b[k]
    decreases |a|
  {
    if a == [] {
    } else if a[0] < b[0] {
      assert a[..0] == b[..0];
    } else if a[0] > b[0] {
      if exists k :: 0 <= k < |a| && a[..k] == b[..k] && a[k] < b[k] {
        var k :| 0 <= k < |a| && a[..k] == b[..k] && a[k] < b[k];
        if k > 0 {
          assert a[0] == a[..k][0] == b[..k][0] == b[0];
        }
      }
    } else {
      MemCmpIsLexicographic(a[1..], b[1..]);
      if MemCmp(a, b) < 0 {
        var k :| 0 <= k < |a| - 1 && a[1..][..k] == b[1..][..k] && a[1..][k] < b[1..][k];
        assert a[..k + 1] == [a[0]] + a[1..][..k];
        assert b[..k + 1] == [b[0]] + b[1..][..k];
      }
      if exists k :: 0 <= k < |a| && a[..k] == b[..k] && a[k] < b[k] {
        var k :| 0 <= k < |a| && a[..k] == b[..k] && a[k] < b[k];
        assert k > 0;
        assert a[1..][..k - 1] == a[..k][1..] && b[1..][..k - 1] == b[..k][1..];
        assert a[1..][k - 1] == a[k] && b[1..][k - 1] == b[k];
      }
    }
  }

  /** `ruid_internal_cmp` (src/ruid.c:228-232). */
  function InternalCmp(a: Ruid, b: Ruid): (d: int32)
    ensures d == 0 <==> a == b
    ensures d < 0 <==> BigEndianValue(a) < BigEndianValue(b)
    ensures d > 0 <==> BigEndianValue(a) > BigEndianValue(b)
  {
    MemCmpZeroIff(a, b);
    MemCmpIsNumericOrder(a, b);
    MemCmp(a, b)
  }

  /** Swapping the arguments flips the sign. */
  lemma CmpAntisymmetric(a: Ruid, b: Ruid)
    ensures InternalCmp(a, b) < 0 <==> InternalCmp(b, a) > 0
    ensures InternalCmp(a, b) == 0 <==> InternalCmp(b, a) == 0
  {
  }

  /** The order is transitive. */
  lemma CmpTransitive(a: Ruid, b: Ruid, c: Ruid)
    ensures InternalCmp(a, b) <= 0 && InternalCmp(b, c) <= 0 ==> InternalCmp(a, c) <= 0
    ensures InternalCmp(a, b) < 0 && InternalCmp(b, c) < 0 ==> InternalCmp(a, c) < 0
  {
  }

  /** The order is total: any two values are equal or one is below the other. */
  lemma CmpTotal(a: Ruid, b: Ruid)
    ensures a == b || InternalCmp(a, b) < 0 || InternalCmp(b, a) < 0
  {
  }

  /** `ruid_lt` (src/ruid.c:236-243). */
  function Lt(a: Ruid, b: Ruid): (r: bool)
    ensures r <==> BigEndianValue(a) < BigEndianValue(b)
  {
    InternalCmp(a, b) < 0
  }

  /** `ruid_le` (src/ruid.c:247-254). */
  function Le(a: Ruid, b: Ruid): (r: bool)
    ensures r <==> BigEndianValue(a) <= BigEndianValue(b)
  {
    InternalCmp(a, b) <= 0
  }

  /** `ruid_eq` (src/ruid.c:258-265). */
  function Eq(a: Ruid, b: Ruid): (r: bool)
    ensures r <==> a == b
  {
    InternalCmp(a, b) == 0
  }

  /** `ruid_ge` (src/ruid.c:269-276). */
  function Ge(a: Ruid, b: Ruid): (r: bool)
    ensures r <==> BigEndianValue(a) >= BigEndianValue(b)
  {
    InternalCmp(a, b) >= 0
  }

  /** `ruid_gt` (src/ruid.c:280-287). */
  function Gt(a: Ruid, b: Ruid): (r: bool)
    ensures r <==> BigEndianValue(a) > BigEndianValue(b)
  {
    InternalCmp(a, b) > 0
  }

  /** `ruid_ne` (src/ruid.c:291-298). */
  function Ne(a: Ruid, b: Ruid): (r: bool)
    ensures r <==> a != b
  {
    InternalCmp(a, b) != 0
  }

  /** `ruid_cmp`, the btree support function (src/ruid.c:302-310): the comparison result itself. */
  function Cmp(a: Ruid, b: Ruid): (d: int32)
    ensures d < 0 <==> Lt(a, b)
    ensures d == 0 <==> Eq(a, b)
    ensures d > 0 <==> Gt(a, b)
  {
    InternalCmp(a, b)
  }

  /** The operators agree with each other as a btree operator class needs. */
  lemma OperatorsConsistent(a: Ruid, b: Ruid)
    ensures Le(a, b) <==> Lt(a, b) || Eq(a, b)
    ensures Ge(a, b) <==> Gt(a, b) || Eq(a, b)
    ensures Ne(a, b) <==> !Eq(a, b)
    ensures Lt(a, b) <==> Gt(b, a)
    ensures (Lt(a, b) && !Eq(a, b) && !Gt(a, b)) || (!Lt(a, b) && Eq(a, b) && !Gt(a, b)) || (!Lt(a, b) && !Eq(a, b) && Gt(a, b))
  {
  }

  /** `ruid_hash` (src/ruid.c:315-321): PostgreSQL's `hash_any` of the 16 bytes, which this model takes as a parameter. */
  function Hash(hashAny: seq<byte> -> int32, v: Ruid): (h: int32)
    ensures forall u: Ruid :: Eq(u, v) ==> h == hashAny(u)
  {
    hashAny(v)
  }
}
