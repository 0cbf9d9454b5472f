/** Prefixes as ranges of addresses. */
module Prefixes {
  import opened Net

  function Halved(x: nat, times: nat): nat { if times == 0 then x else Halved(x / 2, times - 1) }

  /** The `i`-th bit of an address, the most significant one first. */
  predicate Bit(bytes: seq<byte>, i: nat) { i / 8 < |bytes| && Halved(bytes[i / 8], 7 - i % 8) % 2 == 1 }

  /** `q` is shorter than `p`, and its bits begin the address of `p`. */
  predicate Contains(q: Pfx, p: Pfx) {
    q.addr.ver == p.addr.ver && q.len < p.len && forall i: nat :: i < q.len ==>
      Bit(q.addr.bytes, i) == Bit(p.addr.bytes, i)
  }

  // ---------------------------------------------------------------- addresses as numbers

  ghost function Pow2(n: nat): (r: nat)
    ensures r > 0
  {
    if n == 0 then 1 else 2 * Pow2(n - 1)
  }

  /** The bytes of an address as a number, in network order. */
  ghost function Num(bytes: seq<byte>): nat {
    if |bytes| == 0 then 0 else Num(bytes[..|bytes| - 1]) * 256 + bytes[|bytes| - 1]
  }

  ghost predicate Proper(p: Pfx) { p.addr.Ok() && p.len <= 8 * p.addr.ver.Bytes() }

  /** The number of addresses of a prefix. */
  ghost function Size(p: Pfx): nat
    requires Proper(p)
  {
    Pow2(8 * p.addr.ver.Bytes() - p.len)
  }

  /** The first address: all bits after the prefix are zero. */
  ghost function First(p: Pfx): (a: int)
    requires Proper(p)
  {
    Num(p.addr.bytes) - Num(p.addr.bytes) % Size(p)
  }

  ghost predicate Has(p: Pfx, a: int)
    requires Proper(p)
  {
    First(p) <= a < First(p) + Size(p)
  }

  // ---------------------------------------------------------------- bits

  lemma {:induction false} HalvedTwice(x: nat, s: nat, t: nat)
    ensures Halved(x, s + t) == Halved(Halved(x, s), t)
  {
    if s > 0 { HalvedTwice(x / 2, s - 1, t); }
  }

  lemma {:induction false} HalvedIsDiv(x: nat, t: nat)
    ensures Halved(x, t) == x / Pow2(t)
  {
    if t > 0 {
      HalvedIsDiv(x / 2, t - 1);
      HalfFirst(x, Pow2(t - 1));
    }
  }

  lemma HalfFirst(x: nat, p: nat)
    requires p > 0
    ensures x / 2 / p == x / (2 * p)
  {
    var h := x / 2 / p;
    Quotient(x / 2, p, h);
    var y := h * p;
    assert h * (2 * p) == 2 * y && (h + 1) * (2 * p) == 2 * (y + p);
    assert (h + 1) * p == y + p;
    Quotient(x, 2 * p, h);
  }

  lemma Quotient(x: int, s: int, m: int)
    requires s > 0
    ensures m == x / s <==> m * s <= x < (m + 1) * s
  {
    var d := x / s;
    assert x == d * s + x % s;
    if m < d { assert (m + 1) * s <= d * s; }
    if m > d { assert (d + 1) * s <= m * s; }
  }

  lemma {:induction false} PowSum(a: nat, b: nat)
    ensures Pow2(a + b) == Pow2(a) * Pow2(b)
  {
    if a > 0 { PowSum(a - 1, b); }
  }

  /** Bits above the ones cut off are only moved. */
  lemma {:induction false} Shifted(n: nat, x: nat, t: nat)
    ensures Halved(n * Pow2(t) + x, t) == n + Halved(x, t)
  {
    if t > 0 {
      var y := n * Pow2(t - 1);
      assert n * Pow2(t) == 2 * y;
      assert (2 * y + x) / 2 == y + x / 2;
      Shifted(n, x / 2, t - 1);
    }
  }

  lemma Regroup(n: nat, a: nat, b: nat)
    requires a * (2 * b) == 256
    ensures 2 * (n * b) * a == n * 256
  {
    assert 2 * (n * b) * a == n * (a * (2 * b));
  }

  /** A bit of the last byte does not depend on the bytes before it. */
  lemma ByteBit(n: nat, x: nat, t: nat)
    requires t < 8
    ensures Halved(n * 256 + x, t) % 2 == Halved(x, t) % 2
  {
    var m := n * Pow2(7 - t);
    assert Pow2(t) * Pow2(8 - t) == 256 by {
      PowSum(t, 8 - t);
      assert Pow2(8) == 256;
    }
    Regroup(n, Pow2(t), Pow2(7 - t));
    Shifted(2 * m, x, t);
  }

  lemma LastByteOff(n: nat, x: byte)
    ensures Halved(n * 256 + x, 8) == n
  {
    assert Pow2(8) == 256;
    Shifted(n, x, 8);
    HalvedIsDiv(x, 8);
  }

  lemma {:induction false} BytesOff(bytes: seq<byte>, k: nat)
    requires k <= |bytes|
    ensures Halved(Num(bytes), 8 * (|bytes| - k)) == Num(bytes[..k])
    decreases |bytes|
  {
    var m := |bytes| - 1;
    if k > m {
      assert bytes[..k] == bytes;
    } else {
      HalvedTwice(Num(bytes), 8, 8 * (m - k));
      LastByteOff(Num(bytes[..m]), bytes[m]);
      BytesOff(bytes[..m], k);
      assert bytes[..m][..k] == bytes[..k];
    }
  }

  /** The first `n` bits of an address as a number. */
  ghost function Top(bytes: seq<byte>, n: nat): nat
    requires n <= 8 * |bytes|
  {
    Halved(Num(bytes), 8 * |bytes| - n)
  }

  lemma TopMore(bytes: seq<byte>, n: nat)
    requires n < 8 * |bytes|
    ensures Top(bytes, n + 1) == 2 * Top(bytes, n) + if Bit(bytes, n) then 1 else 0
  {
    hide Num;
    var k, r := n / 8, n % 8;
    var w := 8 * |bytes| - n - 1;
    HalvedTwice(Num(bytes), w, 1);
    assert Top(bytes, n) == Top(bytes, n + 1) / 2;
    HalvedTwice(Num(bytes), 8 * (|bytes| - k - 1), 7 - r);
    BytesOff(bytes, k + 1);
    LastByte(bytes, k);
    ByteBit(Num(bytes[..k]), bytes[k], 7 - r);
  }

  lemma LastByte(bytes: seq<byte>, k: nat)
    requires k < |bytes|
    ensures Num(bytes[..k + 1]) == Num(bytes[..k]) * 256 + bytes[k]
  {
    assert bytes[..k + 1][..k] == bytes[..k];
  }

  lemma {:induction false} SameTop(b: seq<byte>, c: seq<byte>, n: nat)
    requires |b| == |c| && n <= 8 * |b|
    ensures Top(b, n) == Top(c, n) <==> forall i: nat :: i < n ==> Bit(b, i) == Bit(c, i)
  {
    hide Top, Bit;
    if n == 0 {
      TopNone(b);
      TopNone(c);
    } else {
      SameTop(b, c, n - 1);
      TopMore(b, n - 1);
      TopMore(c, n - 1);
    }
  }

  lemma TopNone(b: seq<byte>)
    ensures Top(b, 0) == 0
  {
    BytesOff(b, 0);
  }

  // ---------------------------------------------------------------- ranges

  /** A prefix contains another one exactly when they are of one family, and every address of the
      second is one of the first, but not the other way round. */
  lemma ContainsIsRange(q: Pfx, p: Pfx)
    requires Proper(q) && Proper(p)
    ensures Contains(q, p) <==>
            && q.addr.ver == p.addr.ver
            && (forall a :: Has(p, a) ==> Has(q, a)) && !(forall a :: Has(q, a) ==> Has(p, a))
  {
    hide Size, First, Num, Bit, Top;
    RangeIn(q, p);
    RangeIn(p, q);
    if q.addr.ver == p.addr.ver {
      var w := 8 * p.addr.ver.Bytes();
      if q.len < p.len {
        Nested(q, p);
        SameTop(q.addr.bytes, p.addr.bytes, q.len);
      } else {
        Sizes(p, q);
      }
    }
  }

  lemma RangeIn(q: Pfx, p: Pfx)
    requires Proper(q) && Proper(p)
    ensures (forall a :: Has(p, a) ==> Has(q, a)) <==>
            First(q) <= First(p) && First(p) + Size(p) <= First(q) + Size(q)
  {
    hide Size, First;
    assert Size(p) > 0 by { PositiveSize(p); }
    assert Has(p, First(p)) && Has(p, First(p) + Size(p) - 1);
  }

  lemma PositiveSize(p: Pfx)
    requires Proper(p)
    ensures Size(p) > 0
  {
  }

  lemma Sizes(q: Pfx, p: Pfx)
    requires Proper(q) && Proper(p) && q.addr.ver == p.addr.ver && q.len <= p.len
    ensures Size(q) == Size(p) * Pow2(p.len - q.len) >= Size(p)
    ensures q.len < p.len ==> Size(q) > Size(p)
  {
    var w := 8 * p.addr.ver.Bytes();
    PowSum(w - p.len, p.len - q.len);
    Grows(Pow2(w - p.len), Pow2(p.len - q.len));
  }

  lemma Grows(s: nat, d: nat)
    requires s > 0 && d > 0
    ensures s * d >= s && (d > 1 ==> s * d > s)
  {
  }

  /** The range of the longer prefix lies in the one of the shorter exactly if their first bits agree. */
  lemma Nested(q: Pfx, p: Pfx)
    requires Proper(q) && Proper(p) && q.addr.ver == p.addr.ver && q.len < p.len
    ensures Size(q) > Size(p)
    ensures First(q) <= First(p) && First(p) + Size(p) <= First(q) + Size(q) <==>
            Top(q.addr.bytes, q.len) == Top(p.addr.bytes, q.len)
  {
    hide Num, Pow2, Halved;
    Sizes(q, p);
    var w := 8 * p.addr.ver.Bytes();
    HalvedIsDiv(Num(q.addr.bytes), w - q.len);
    HalvedIsDiv(Num(p.addr.bytes), w - q.len);
    Aligned(Num(p.addr.bytes), Num(q.addr.bytes), Size(p), Pow2(p.len - q.len));
  }

  lemma Aligned(np: nat, nq: nat, s: nat, d: nat)
    requires s > 0 && d > 0
    ensures s * d > 0
    ensures var fp, fq := np - np % s, nq - nq % (s * d);
            fq <= fp && fp + s <= fq + s * d <==> np / (s * d) == nq / (s * d)
  {
    Grows(s, d);
    var b := s * d;
    InBlock(np, s, d, b);
    SameBlock(np - np % s, s, b, np / b, nq);
  }

  /** The small block of an address lies in its big block. */
  lemma InBlock(x: nat, s: nat, d: nat, b: nat)
    requires s > 0 && d > 0 && b == s * d && b > 0
    ensures x / b * b <= x - x % s && x - x % s + s <= (x / b + 1) * b
  {
    var m, k := x / b, x / s;
    Quotient(x, s, k);
    Quotient(x, b, m);
    assert x - x % s == k * s;
    Multiples(m * d, k + 1, s);
    Multiples(k, (m + 1) * d, s);
    assert m * b == m * d * s && (m + 1) * b == (m + 1) * d * s;
    Scaled(m * d, k, s);
    Scaled(k + 1, (m + 1) * d, s);
  }

  lemma Multiples(a: int, b: int, s: int)
    requires s > 0 && a * s < b * s
    ensures a < b
  {
    if a >= b { Scaled(b, a, s); }
  }

  lemma Scaled(a: int, b: int, s: int)
    requires s > 0 && a <= b
    ensures a * s <= b * s
  {
  }

  lemma SameBlock(f: int, s: nat, b: nat, m: int, y: nat)
    requires 0 < s && 0 < b && m * b <= f && f + s <= (m + 1) * b
    ensures y - y % b <= f && f + s <= y - y % b + b <==> m == y / b
  {
    var k := y / b;
    Quotient(y, b, k);
    assert y - y % b == k * b && (k + 1) * b == k * b + b;
    if k < m { Scaled(k + 1, m, b); }
    if k > m { Scaled(m + 1, k, b); }
  }
}
