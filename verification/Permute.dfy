/** The permutation of an array with a given number. */
module Permute {

  function Factorial(n: nat): (f: nat)
    ensures f > 0
  {
    if n == 0 then 1 else n * Factorial(n - 1)
  }

  function Swapped<T>(s: seq<T>, x: nat): (r: seq<T>)
    requires x < |s|
    ensures |r| == |s|
  {
    s[0 := s[x]][x := s[0]]
  }

  /** Permutation number n of s: the remainder picks the first element, the quotient numbers the
      permutation of the others. */
  function Permuted<T>(s: seq<T>, n: nat): (r: seq<T>)
    ensures |r| == |s|
    decreases |s|
  {
    if s == [] then []
    else
      var t := Swapped(s, n % |s|);
      [t[0]] + Permuted(t[1..], n / |s|)
  }

  lemma {:induction false} NumberZero<T>(s: seq<T>)
    ensures Permuted(s, 0) == s
    decreases |s|
  {
    if s != [] {
      assert Swapped(s, 0) == s;
      NumberZero(s[1..]);
    }
  }

  lemma PermutedStep<T>(s: seq<T>, n: nat, x: nat, k: nat)
    requires s != [] && x == n % |s| && k == n / |s|
    ensures x < |s| && Permuted(s, n) == [s[x]] + Permuted(Swapped(s, x)[1..], k)
  {
  }

  /** The first element and the one the remainder picks change places; the quotient numbers what is done with
      the rest. */
  lemma PermutedBySwap<T>(s: seq<T>, n: nat)
    requires s != []
    ensures var x := n % |s|;
      Permuted(s, n)[0] == s[x] && Permuted(s, n)[1..] == Permuted(s[x := s[0]][1..], n / |s|)
  {
    var x := n % |s|;
    assert Swapped(s, x)[1..] == s[x := s[0]][1..];
  }

  /** The numbers below the size exchange the first element with the one at that place. */
  lemma SmallNumberSwaps<T>(s: seq<T>, n: nat)
    requires n < |s|
    ensures Permuted(s, n) == s[0 := s[n]][n := s[0]]
  {
    PermutedBySwap(s, n);
    SmallDivision(n, |s|);
    NumberZero(s[n := s[0]][1..]);
    hide Permuted;
    SwapParts(s, n);
    HeadAndTail(Permuted(s, n), s[0 := s[n]][n := s[0]]);
  }

  lemma SmallDivision(n: nat, q: nat)
    requires n < q
    ensures n % q == n && n / q == 0
  {
  }

  lemma SwapParts<T>(s: seq<T>, n: nat)
    requires n < |s|
    ensures var r := s[0 := s[n]][n := s[0]]; r[0] == s[n] && r[1..] == s[n := s[0]][1..]
  {
  }

  lemma HeadAndTail<T>(p: seq<T>, r: seq<T>)
    requires |p| == |r| > 0 && p[0] == r[0] && p[1..] == r[1..]
    ensures p == r
  {
    assert p == [p[0]] + p[1..] && r == [r[0]] + r[1..];
  }

  /** The swaps that make permutation number n, in place. */
  method PermuteInPlace<T>(it: array<T>, number: nat)
    modifies it
    ensures it[..] == Permuted(old(it[..]), number)
  {
    hide Permuted;
    var i: nat, n: nat := 0, number;
    var q: nat := it.Length;
    assert it[0..] == it[..] && it[..0] == [];
    while n != 0 && q != 0
      invariant i <= it.Length && q == it.Length - i
      invariant it[..i] + Permuted(it[i..], n) == Permuted(old(it[..]), number)
      decreases q
    {
      var x := n % q;
      ghost var s, k := it[i..], n / q;
      PermutedStep(s, n, x, k);
      ghost var done := it[..i];
      SwapAt(it, i, x);
      assert done + ([s[x]] + Permuted(Swapped(s, x)[1..], k)) == done + [s[x]] + Permuted(Swapped(s, x)[1..], k);
      n := n / q;
      q := q - 1;
      i := i + 1;
    }
    if n == 0 {
      NumberZero(it[i..]);
    } else {
      assert it[i..] == [];
    }
    assert it[..i] + it[i..] == it[..];
  }

  /** Exchanges two elements unless they are the same one; all others keep their places. */
  method SwapAt<T>(it: array<T>, i: nat, x: nat)
    requires i + x < it.Length
    modifies it
    ensures it[i] == old(it[i + x]) && it[i + x] == old(it[i])
    ensures forall k :: 0 <= k < it.Length && k != i && k != i + x ==> it[k] == old(it[k])
    ensures it[..i + 1] == old(it[..i] + [it[i + x]])
    ensures it[i + 1..] == Swapped(old(it[i..]), x)[1..]
  {
    if x != 0 {
      var tmp := it[i];
      it[i] := it[i + x];
      it[i + x] := tmp;
    }
  }

  lemma SwapKeepsElements<T>(s: seq<T>, x: nat)
    requires x < |s|
    ensures multiset(Swapped(s, x)) == multiset(s)
  {
  }

  /** The result is a permutation. */
  lemma {:induction false} IsPermutation<T>(s: seq<T>, n: nat)
    ensures multiset(Permuted(s, n)) == multiset(s)
    decreases |s|
  {
    if s != [] {
      var t := Swapped(s, n % |s|);
      SwapKeepsElements(s, n % |s|);
      IsPermutation(t[1..], n / |s|);
      assert t == [t[0]] + t[1..];
    }
  }

  lemma MulLess(d: nat, a: nat, b: nat)
    requires a < b
    ensures d * a + d <= d * b
  {
    assert d * b == d * a + d * (b - a);
    assert d * (b - a) == d * (b - a - 1) + d;
  }

  lemma Remainder(n: nat, d: nat, q: nat, r: nat)
    requires d > 0 && n == d * q + r && r < d
    ensures n % d == r && n / d == q
  {
    var p := n / d;
    assert n == d * p + n % d;
    if p < q {
      MulLess(d, p, q);
    } else if p > q {
      MulLess(d, q, p);
    }
  }

  /** Remainder and quotient of a number taken modulo a product. */
  lemma Positional(n: nat, q: nat, f: nat) returns (m: nat)
    requires q > 0 && f > 0
    ensures q * f > 0 && m == n % (q * f) && m % q == n % q && m / q == n / q % f
  {
    var k, x := n / q, n % q;
    var j, r := k / f, k % f;
    m := q * r + x;
    ProductSplit(n, q, f, k, x, j, r);
    MulLess(q, r, f);
    Remainder(n, q * f, j, m);
    Remainder(m, q, r, x);
  }

  lemma ProductSplit(n: nat, q: nat, f: nat, k: nat, x: nat, j: nat, r: nat)
    requires n == q * k + x && k == f * j + r
    ensures n == q * f * j + (q * r + x)
  {
    assert q * (f * j + r) == q * (f * j) + q * r;
    assert q * (f * j) == q * f * j;
  }

  /** Only the number modulo the factorial of the size matters. */
  lemma {:induction false} NumberWrapsAround<T>(s: seq<T>, n: nat)
    ensures Permuted(s, n) == Permuted(s, n % Factorial(|s|))
    decreases |s|
  {
    if s != [] {
      var q := |s|;
      var m := Positional(n, q, Factorial(q - 1));
      var t := Swapped(s, n % q);
      NumberWrapsAround(t[1..], n / q);
      assert Factorial(q) == q * Factorial(q - 1);
    }
  }

  ghost predicate Distinct<T>(s: seq<T>) {
    forall i, j :: 0 <= i < j < |s| ==> s[i] != s[j]
  }

  lemma SwapKeepsDistinct<T>(s: seq<T>, x: nat)
    requires x < |s| && Distinct(s)
    ensures Distinct(Swapped(s, x)[1..])
  {
  }

  /** Different numbers below the factorial give different permutations of distinct elements. */
  lemma {:induction false} DifferentNumbersDiffer<T>(s: seq<T>, n: nat, m: nat)
    requires Distinct(s) && n < Factorial(|s|) && m < Factorial(|s|) && Permuted(s, n) == Permuted(s, m)
    ensures n == m
    decreases |s|
  {
    if s != [] {
      var q := |s|;
      var x, k := DivMod(n, q);
      var y, l := DivMod(m, q);
      PermutedStep(s, n, x, k);
      PermutedStep(s, m, y, l);
      QuotientBound(n, q);
      QuotientBound(m, q);
      hide Permuted, Factorial, Swapped, Distinct;
      SamePlace(s, x, y, Permuted(Swapped(s, x)[1..], k), Permuted(Swapped(s, y)[1..], l));
      SwapKeepsDistinct(s, x);
      DifferentNumbersDiffer(Swapped(s, x)[1..], k, l);
      Recombine(n, m, q);
    }
  }

  lemma DivMod(n: nat, q: nat) returns (x: nat, k: nat)
    requires q > 0
    ensures x == n % q && k == n / q
  {
    x, k := n % q, n / q;
  }

  lemma SamePlace<T>(s: seq<T>, x: nat, y: nat, v: seq<T>, w: seq<T>)
    requires Distinct(s) && x < |s| && y < |s| && [s[x]] + v == [s[y]] + w
    ensures x == y && v == w
  {
    assert ([s[x]] + v)[0] == ([s[y]] + w)[0];
    assert ([s[x]] + v)[1..] == v && ([s[y]] + w)[1..] == w;
  }

  lemma Recombine(n: nat, m: nat, q: nat)
    requires q > 0 && n % q == m % q && n / q == m / q
    ensures n == m
  {
    assert n == q * (n / q) + n % q && m == q * (m / q) + m % q;
  }

  lemma OneMore(q: nat, k: nat)
    ensures q * (k + 1) == q * k + q
  {
  }

  lemma QuotientBound(n: nat, q: nat)
    requires q > 0 && n < Factorial(q)
    ensures n / q < Factorial(q - 1)
  {
    var f, k := Factorial(q - 1), n / q;
    assert q * k <= n;
    if f <= k {
      MulLess(q, f, k + 1);
      OneMore(q, k);
    }
  }

  /** Every permutation has a number. */
  lemma {:induction false} EveryPermutationHasANumber<T>(s: seq<T>, p: seq<T>) returns (n: nat)
    requires multiset(p) == multiset(s)
    ensures n < Factorial(|s|) && Permuted(s, n) == p
    decreases |s|
  {
    SameLength(s, p);
    if s == [] {
      n := 0;
    } else {
      var x := FirstPlace(s, p);
      var k := EveryPermutationHasANumber(Swapped(s, x)[1..], p[1..]);
      n := |s| * k + x;
      Remainder(n, |s|, k, x);
      PermutedStep(s, n, x, k);
      MulLess(|s|, k, Factorial(|s| - 1));
      hide Permuted, Swapped;
      assert p == [p[0]] + p[1..];
    }
  }

  lemma SameLength<T>(s: seq<T>, p: seq<T>)
    requires multiset(p) == multiset(s)
    ensures |p| == |s|
  {
    assert |multiset(p)| == |p| && |multiset(s)| == |s|;
  }

  /** Where the first element of the permutation stands. */
  lemma FirstPlace<T>(s: seq<T>, p: seq<T>) returns (x: nat)
    requires multiset(p) == multiset(s) && |p| == |s| > 0
    ensures x < |s| && s[x] == p[0] && multiset(p[1..]) == multiset(Swapped(s, x)[1..])
  {
    assert p[0] in multiset(p);
    x :| x < |s| && s[x] == p[0];
    var t := Swapped(s, x);
    SwapKeepsElements(s, x);
    TailElements(p);
    TailElements(t);
  }

  lemma TailElements<T>(p: seq<T>)
    requires p != []
    ensures multiset(p[1..]) == multiset(p) - multiset{p[0]}
  {
    assert p == [p[0]] + p[1..];
  }
}
