// The arithmetic behind exchange in client/src/ogrt-cmdline.c, whose two branches are the
// subtractive form of Euclid's algorithm on the lengths of the two segments.
module Rotation {
  function Gcd(a: nat, b: nat): nat
    decreases a + b
  {
    if a == 0 then b
    else if b == 0 then a
    else if a < b then Gcd(a, b - a)
    else Gcd(a - b, b)
  }

  ghost predicate Divides(d: nat, n: nat) {
    exists q: nat :: q * d == n
  }

  lemma DividesSum(d: nat, a: nat, b: nat)
    requires Divides(d, a) && Divides(d, b)
    ensures Divides(d, a + b)
  {
    var p: nat :| p * d == a;
    var q: nat :| q * d == b;
    assert (p + q) * d == a + b;
  }

  lemma LessFactor(p: nat, q: nat, d: nat)
    requires d > 0
    ensures p < q ==> p * d < q * d
  {
    if p < q {
      assert (q - p) * d > 0;
    }
  }

  lemma DividesDifference(d: nat, a: nat, b: nat)
    requires Divides(d, a) && Divides(d, b) && b <= a && d > 0
    ensures Divides(d, a - b)
  {
    var p: nat :| p * d == a;
    var q: nat :| q * d == b;
    LessFactor(p, q, d);
    assert (p - q) * d == a - b;
  }

  lemma DividesTrivially(d: nat)
    ensures Divides(d, 0) && Divides(d, d)
  {
    assert 0 * d == 0 && 1 * d == d;
  }

  // Gcd is the greatest common divisor in the order of divisibility.
  lemma {:induction false} GcdIsGreatest(a: nat, b: nat)
    ensures Divides(Gcd(a, b), a) && Divides(Gcd(a, b), b)
    ensures forall d: nat :: d > 0 && Divides(d, a) && Divides(d, b) ==> Divides(d, Gcd(a, b))
    decreases a + b
  {
    var g := Gcd(a, b);
    DividesTrivially(g);
    if a == 0 || b == 0 {
    } else if a < b {
      GcdIsGreatest(a, b - a);
      DividesSum(g, a, b - a);
      forall d: nat | d > 0 && Divides(d, a) && Divides(d, b) ensures Divides(d, g) {
        DividesDifference(d, b, a);
      }
    } else {
      GcdIsGreatest(a - b, b);
      DividesSum(g, a - b, b);
      forall d: nat | d > 0 && Divides(d, a) && Divides(d, b) ensures Divides(d, g) {
        DividesDifference(d, a, b);
      }
    }
  }

  // s with the adjacent segments [bottom, middle) and [middle, top) exchanged.
  function Exchanged<T>(s: seq<T>, bottom: nat, middle: nat, top: nat): (r: seq<T>)
    requires bottom <= middle <= top <= |s|
    ensures |r| == |s|
  {
    s[..bottom] + s[middle..top] + s[bottom..middle] + s[top..]
  }

  // s with the n elements from p on and the n elements from q on swapped.
  function Swapped<T>(s: seq<T>, p: nat, q: nat, n: nat): (r: seq<T>)
    requires p + n <= q && q + n <= |s|
    ensures |r| == |s|
  {
    s[..p] + s[q..q + n] + s[p + n..q] + s[p..p + n] + s[q + n..]
  }

  // Where the element that ends up at k came from.
  function ExchangedFrom(bottom: nat, middle: nat, top: nat, k: nat): nat
    requires bottom <= middle <= top
  {
    if bottom <= k < bottom + (top - middle) then k + (middle - bottom)
    else if bottom + (top - middle) <= k < top then k - (top - middle)
    else k
  }

  function SwappedFrom(p: nat, q: nat, n: nat, k: nat): nat
    requires p + n <= q
  {
    if p <= k < p + n then k + (q - p)
    else if q <= k < q + n then k - (q - p)
    else k
  }

  lemma ExchangedAt<T>(s: seq<T>, bottom: nat, middle: nat, top: nat, k: nat)
    requires bottom <= middle <= top <= |s| && k < |s|
    ensures ExchangedFrom(bottom, middle, top, k) < |s|
    ensures Exchanged(s, bottom, middle, top)[k] == s[ExchangedFrom(bottom, middle, top, k)]
  {
  }

  lemma SwappedAt<T>(s: seq<T>, p: nat, q: nat, n: nat, k: nat)
    requires p + n <= q && q + n <= |s| && k < |s|
    ensures SwappedFrom(p, q, n, k) < |s|
    ensures Swapped(s, p, q, n)[k] == s[SwappedFrom(p, q, n, k)]
  {
  }

  // Swapping a short bottom segment with the far end of the top segment puts it in place.
  lemma ShortBottom<T>(s: seq<T>, bottom: nat, middle: nat, top: nat)
    requires bottom <= middle <= top <= |s| && middle - bottom <= top - middle
    ensures var n := middle - bottom;
            Exchanged(Swapped(s, bottom, top - n, n), bottom, middle, top - n) == Exchanged(s, bottom, middle, top)
  {
    hide Exchanged, Swapped;
    var n := middle - bottom;
    var u := Swapped(s, bottom, top - n, n);
    var l, r := Exchanged(u, bottom, middle, top - n), Exchanged(s, bottom, middle, top);
    forall k | 0 <= k < |s| ensures l[k] == r[k] {
      ExchangedAt(u, bottom, middle, top - n, k);
      SwappedAt(s, bottom, top - n, n, ExchangedFrom(bottom, middle, top - n, k));
      ExchangedAt(s, bottom, middle, top, k);
    }
  }

  // Swapping a short top segment with the start of the bottom segment puts it in place.
  lemma ShortTop<T>(s: seq<T>, bottom: nat, middle: nat, top: nat)
    requires bottom <= middle <= top <= |s| && top - middle <= middle - bottom
    ensures var n := top - middle;
            Exchanged(Swapped(s, bottom, middle, n), bottom + n, middle, top) == Exchanged(s, bottom, middle, top)
  {
    hide Exchanged, Swapped;
    var n := top - middle;
    var u := Swapped(s, bottom, middle, n);
    var l, r := Exchanged(u, bottom + n, middle, top), Exchanged(s, bottom, middle, top);
    forall k | 0 <= k < |s| ensures l[k] == r[k] {
      ExchangedAt(u, bottom + n, middle, top, k);
      SwappedAt(s, bottom, middle, n, ExchangedFrom(bottom + n, middle, top, k));
      ExchangedAt(s, bottom, middle, top, k);
    }
  }

  lemma ExchangedTrivially<T>(s: seq<T>, bottom: nat, middle: nat, top: nat)
    requires bottom <= middle <= top <= |s| && (bottom == middle || middle == top)
    ensures Exchanged(s, bottom, middle, top) == s
  {
  }
}
