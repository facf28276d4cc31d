/**
 Addresses as numbers: what the mask loop of server/clientIp.ts compares. An address of n
 elements of w bits is a number of n * w bits; its prefix of p bits is the quotient by
 2^(n * w - p).
 */
module Prefixes {
  import opened Bits

  predicate Elements(xs: seq<int>, w: nat) { forall i | 0 <= i < |xs| :: 0 <= xs[i] < Pow2(w) }

  /** The number that the first n elements spell. */
  function Number(xs: seq<int>, w: nat, n: nat): nat
    requires Elements(xs, w) && n <= |xs|
  {
    if n == 0 then 0 else Number(xs, w, n - 1) * Pow2(w) + xs[n - 1]
  }

  function Address(xs: seq<int>, w: nat): nat
    requires Elements(xs, w)
  {
    Number(xs, w, |xs|)
  }

  function Prefix(xs: seq<int>, w: nat, p: nat): int
    requires Elements(xs, w) && p <= |xs| * w
  {
    Address(xs, w) / Pow2(|xs| * w - p)
  }

  /** Dividing by w bits for each of the last elements leaves the number of the first ones. */
  lemma {:induction false} DropTail(xs: seq<int>, w: nat, j: nat, n: nat, bits: nat)
    requires Elements(xs, w) && j <= n <= |xs| && bits == (n - j) * w
    ensures Number(xs, w, n) / Pow2(bits) == Number(xs, w, j)
  {
    if j < n {
      OneElementLess(j, n, w);
      DropElement(xs, w, n, bits - w);
      DropTail(xs, w, j, n - 1, bits - w);
    }
  }

  lemma OneElementLess(j: nat, n: nat, w: nat)
    requires j < n
    ensures (n - j) * w == w + (n - 1 - j) * w && (n - 1 - j) * w >= 0
  {
  }

  lemma DropElement(xs: seq<int>, w: nat, n: nat, bits: nat)
    requires Elements(xs, w) && 0 < n <= |xs|
    ensures Number(xs, w, n) / Pow2(w + bits) == Number(xs, w, n - 1) / Pow2(bits)
  {
    Pow2Adds(w, bits);
    DivDiv(Number(xs, w, n), Pow2(w), Pow2(bits));
    DivUnique(Number(xs, w, n), Pow2(w), Number(xs, w, n - 1), xs[n - 1]);
  }

  lemma WholeElements(i: nat, n: nat, w: nat, p: nat)
    requires i <= n && i * w <= p <= n * w
    ensures n * w - p + (p - i * w) == (n - i) * w
  {
  }

  /** A prefix that covers the first i elements determines them. */
  lemma PrefixCovers(xs: seq<int>, w: nat, p: nat, i: nat)
    requires Elements(xs, w) && i <= |xs| && i * w <= p <= |xs| * w
    ensures Prefix(xs, w, p) / Pow2(p - i * w) == Number(xs, w, i)
  {
    var n := |xs|;
    WholeElements(i, n, w, p);
    Pow2Adds(n * w - p, p - i * w);
    DivDiv(Address(xs, w), Pow2(n * w - p), Pow2(p - i * w));
    DropTail(xs, w, i, n, (n - i) * w);
  }

  /** The bits behind element i, and behind the prefix. */
  lemma TailBits(n: nat, i: nat, w: nat, p: nat, bits: nat) returns (rest: nat)
    requires i < n && bits <= w && p == i * w + bits && p <= n * w
    ensures rest == (n - (i + 1)) * w && n * w - p == rest + (w - bits)
  {
    MulMonotone(0, n - (i + 1), w);
    rest := (n - (i + 1)) * w;
    assert n * w == rest + i * w + w;
  }

  /** A prefix that ends inside element i consists of the elements before it and its top bits. */
  lemma PrefixSplits(xs: seq<int>, w: nat, p: nat, i: nat, bits: nat)
    requires Elements(xs, w) && i < |xs| && bits <= w && p == i * w + bits && p <= |xs| * w
    ensures Prefix(xs, w, p) == Number(xs, w, i) * Pow2(bits) + Shr(xs[i], w - bits)
  {
    var k := w - bits;
    var rest := TailBits(|xs|, i, w, p, bits);
    var a, x := Number(xs, w, i), xs[i];
    Pow2Adds(rest, k);
    DivDiv(Address(xs, w), Pow2(rest), Pow2(k));
    DropTail(xs, w, i + 1, |xs|, rest);
    Pow2Adds(bits, k);
    assert Pow2(w) == Pow2(bits) * Pow2(k);
    assert Number(xs, w, i + 1) == a * (Pow2(bits) * Pow2(k)) + x;
    DivOfSum(a, x, Pow2(k), Pow2(bits));
    ShrIsDivision(x, k);
  }

  lemma DigitsEqualIff(a: nat, b: nat, x: nat, y: nat, m: nat)
    requires x < m && y < m
    ensures a * m + x == b * m + y <==> a == b && x == y
  {
    DivUnique(a * m + x, m, a, x);
    DivUnique(b * m + y, m, b, y);
  }

  /** The last comparison of the loop decides. */
  lemma LastElementDecides(xs: seq<int>, ys: seq<int>, w: nat, p: nat, i: nat, bits: nat)
    requires Elements(xs, w) && Elements(ys, w) && |xs| == |ys| && i < |xs|
    requires bits <= w && p == i * w + bits && p <= |xs| * w && Number(xs, w, i) == Number(ys, w, i)
    ensures Prefix(xs, w, p) == Prefix(ys, w, p)
       <==> And(xs[i], Shl(Pow2(bits) - 1, w - bits)) == And(ys[i], Shl(Pow2(bits) - 1, w - bits))
  {
    PrefixSplits(xs, w, p, i, bits);
    PrefixSplits(ys, w, p, i, bits);
    ShrSmall(xs[i], bits, w - bits);
    ShrSmall(ys[i], bits, w - bits);
    DigitsEqualIff(Number(xs, w, i), Number(ys, w, i), Shr(xs[i], w - bits), Shr(ys[i], w - bits), Pow2(bits));
    MaskedEqualIff(xs[i], ys[i], bits, w - bits);
  }

  /** A comparison of a whole element that is not the last decides only when it fails. */
  lemma WholeElementStep(xs: seq<int>, ys: seq<int>, w: nat, p: nat, i: nat)
    requires Elements(xs, w) && Elements(ys, w) && |xs| == |ys| && i < |xs|
    requires (i + 1) * w <= p <= |xs| * w && Number(xs, w, i) == Number(ys, w, i)
    ensures xs[i] == ys[i] ==> Number(xs, w, i + 1) == Number(ys, w, i + 1)
    ensures xs[i] != ys[i] ==> Prefix(xs, w, p) != Prefix(ys, w, p)
    ensures And(xs[i], Pow2(w) - 1) == xs[i] && And(ys[i], Pow2(w) - 1) == ys[i]
  {
    PrefixCovers(xs, w, p, i + 1);
    PrefixCovers(ys, w, p, i + 1);
    AndOnes(xs[i], w);
    AndOnes(ys[i], w);
  }

  lemma NoBitsNoDifference(xs: seq<int>, ys: seq<int>, w: nat)
    requires Elements(xs, w) && Elements(ys, w) && |xs| == |ys|
    ensures 0 <= |xs| * w && Prefix(xs, w, 0) == Prefix(ys, w, 0)
  {
    MulMonotone(0, |xs|, w);
    DropTail(xs, w, 0, |xs|, |xs| * w);
    DropTail(ys, w, 0, |ys|, |ys| * w);
  }

  /** A longer prefix determines every shorter one. */
  lemma LongerPrefixDetermines(xs: seq<int>, ys: seq<int>, w: nat, p: nat, q: nat)
    requires Elements(xs, w) && Elements(ys, w) && |xs| == |ys| && p <= q <= |xs| * w
    requires Prefix(xs, w, q) == Prefix(ys, w, q)
    ensures Prefix(xs, w, p) == Prefix(ys, w, p)
  {
    var n := |xs| * w;
    Pow2Adds(n - q, q - p);
    DivDiv(Address(xs, w), Pow2(n - q), Pow2(q - p));
    DivDiv(Address(ys, w), Pow2(n - q), Pow2(q - p));
  }
}
