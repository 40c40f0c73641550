/** Bytes and little-endian words. */
module Bytes {
  type byte = x: int | 0 <= x < 256

  function Zeros(n: nat): (z: seq<byte>)
    ensures |z| == n && forall k :: 0 <= k < n ==> z[k] == 0
  {
    seq(n, _ => 0)
  }

  function PadTo(b: seq<byte>, n: nat): seq<byte> {
    if |b| < n then b + Zeros(n - |b|) else b
  }

  /** The low `width` bytes of the two's complement form of `v`. */
  function LittleEndian(v: int, width: nat): (b: seq<byte>)
    ensures |b| == width
    decreases width
  {
    if width == 0 then [] else [v % 256] + LittleEndian(v / 256, width - 1)
  }

  /** The unsigned word that `b` holds. */
  function Unsigned(b: seq<byte>): nat {
    if b == [] then 0 else b[0] + 256 * Unsigned(b[1..])
  }

  function Pow256(n: nat): (p: nat)
    ensures p > 0
  {
    if n == 0 then 1 else 256 * Pow256(n - 1)
  }

  /** Writing and reading back keeps a word that fits. */
  lemma {:induction false} ReadBack(v: nat, width: nat)
    requires v < Pow256(width)
    ensures Unsigned(LittleEndian(v, width)) == v
  {
    if width > 0 {
      ReadBack(v / 256, width - 1);
      assert LittleEndian(v, width)[1..] == LittleEndian(v / 256, width - 1);
    }
  }

  /** The least multiple of `a` that is not below `x`. */
  function AlignUp(x: nat, a: nat): (r: nat)
    requires a > 0
    ensures x <= r < x + a && r % a == 0
  {
    if x % a == 0 then x
    else
      AlignedSum(x, a);
      x + (a - x % a)
  }

  lemma {:induction false} AlignedSum(x: nat, a: nat)
    requires a > 0
    ensures (x + (a - x % a)) % a == 0
  {
    assert x + (a - x % a) == a * (x / a + 1);
    MultipleIsAligned(x / a + 1, a);
  }

  lemma {:induction false} MultipleIsAligned(k: int, a: nat)
    requires a > 0
    ensures (a * k) % a == 0
  {
    var q, r := (a * k) / a, (a * k) % a;
    assert a * (k - q) == r by { Distribute(a, k, q); }
    if k - q >= 1 {
      Grows(a, k - q);
    }
    if k - q <= -1 {
      Grows(a, q - k);
    }
  }

  lemma {:induction false} Distribute(a: int, k: int, q: int)
    ensures a * (k - q) == a * k - a * q && a * (k + q) == a * k + a * q
  {
  }

  lemma {:induction false} Grows(a: nat, k: int)
    requires k >= 1
    ensures a * k >= a && a * (-k) <= -(a as int)
  {
  }

  lemma {:induction false} SumAligned(x: int, y: int, a: nat)
    requires a > 0 && x % a == 0 && y % a == 0
    ensures (x + y) % a == 0 && (x - y) % a == 0
  {
    var p, q := x / a, y / a;
    assert x == a * p && y == a * q;
    MultiplesAligned(p, q, a);
  }

  lemma {:induction false} MultiplesAligned(p: int, q: int, a: nat)
    requires a > 0
    ensures (a * p + a * q) % a == 0 && (a * p - a * q) % a == 0
  {
    Distribute(a, p, q);
    MultipleIsAligned(p + q, a);
    MultipleIsAligned(p - q, a);
  }

  lemma {:induction false} ProductAligned(x: int, k: int, a: nat)
    requires a > 0 && x % a == 0
    ensures (x * k) % a == 0
  {
    var q := x / a;
    assert x * k == a * (q * k);
    MultipleIsAligned(q * k, a);
  }

  lemma {:induction false} FactorAligned(x: int, a: nat, b: nat)
    requires a > 0 && b > 0 && b % a == 0 && x % b == 0
    ensures x % a == 0
  {
    ProductAligned(b, x / b, a);
  }

  lemma {:induction false} NearMultiples(x: int, y: int, a: nat)
    requires a > 0 && x % a == 0 && y % a == 0 && -(a as int) < x - y < a
    ensures x == y
  {
    SumAligned(x, y, a);
    var q := (x - y) / a;
    assert x - y == a * q;
    if q >= 1 {
      Grows(a, q);
    } else if q <= -1 {
      Grows(a, -q);
    }
  }

  /** Aligning commutes with moving by a multiple of the alignment. */
  lemma {:induction false} AlignUpShifts(base: nat, x: nat, a: nat)
    requires a > 0 && base % a == 0
    ensures AlignUp(base + x, a) == base + AlignUp(x, a)
  {
    SumAligned(base, AlignUp(x, a), a);
    NearMultiples(AlignUp(base + x, a), base + AlignUp(x, a), a);
  }

  /** `part` occupies `whole` from `at` on. */
  predicate Occupies(whole: seq<byte>, at: nat, part: seq<byte>) {
    at + |part| <= |whole| && whole[at..at + |part|] == part
  }

  lemma {:induction false} OccupiesLonger(whole: seq<byte>, more: seq<byte>, at: nat, part: seq<byte>)
    requires Occupies(whole, at, part)
    ensures Occupies(whole + more, at, part)
  {
    assert (whole + more)[at..at + |part|] == whole[at..at + |part|];
  }

  lemma {:induction false} OccupiesEnd(front: seq<byte>, part: seq<byte>, more: seq<byte>)
    ensures Occupies(front + part + more, |front|, part)
  {
    assert (front + part + more)[|front|..|front| + |part|] == part;
  }

  lemma {:induction false} OccupiesFront(whole: seq<byte>, at: nat, part: seq<byte>, more: seq<byte>)
    requires Occupies(whole, at, part + more)
    ensures Occupies(whole, at, part)
  {
    assert whole[at..at + |part|] == (part + more)[..|part|];
  }
}
