/** Merging two unsorted arrays as sets while keeping the order they had. */
module MergeOrder {
  import opened Values
  import opened MergeArrays

  function Reordered(s: seq<Value>, order: seq<nat>): (r: seq<Value>)
    requires |order| == |s| && forall e :: 0 <= e < |order| ==> order[e] < |s|
    ensures |r| == |s| && forall e :: 0 <= e < |r| ==> r[e] == s[order[e]]
  {
    seq(|s|, e requires 0 <= e < |s| => s[order[e]])
  }

  // ---- Tallies of the sorted copy ----

  ghost function Spots(s: seq<Value>, lo: nat, hi: nat, v: Value): set<nat>
    requires hi <= |s|
  {
    set j: nat | lo <= j < hi && s[j] == v
  }

  lemma SpotsStep(s: seq<Value>, lo: nat, hi: nat, v: Value)
    requires lo < hi <= |s|
    ensures lo !in Spots(s, lo + 1, hi, v)
    ensures Spots(s, lo, hi, v) == Spots(s, lo + 1, hi, v) + if s[lo] == v then {lo} else {}
  {
  }

  lemma {:induction false} TallyIsSize(s: seq<Value>, lo: nat, hi: nat, v: Value)
    requires hi <= |s|
    ensures Tally(s, lo, hi, v) == |Spots(s, lo, hi, v)|
    decreases hi - lo
  {
    if lo >= hi {
      assert Spots(s, lo, hi, v) == {};
    } else {
      hide Spots;
      TallyIsSize(s, lo + 1, hi, v);
      SpotsStep(s, lo, hi, v);
    }
  }

  /** Renaming without collisions keeps the size of a set. */
  lemma {:induction false} SizeOfImage(from: set<nat>, image: set<nat>, f: seq<nat>)
    requires forall e :: e in from ==> e < |f| && f[e] in image
    requires forall i :: i in image ==> exists e :: e in from && f[e] == i
    requires forall e, g :: e in from && g in from && e != g ==> f[e] != f[g]
    ensures |from| == |image|
    decreases |from|
  {
    if from == {} {
      assert image == {};
    } else {
      var e :| e in from;
      SizeOfImage(from - {e}, image - {f[e]}, f);
    }
  }

  /** In the sorted copy, as many equal elements come before an element as in the original. */
  lemma SortedTally(s: seq<Value>, e: nat)
    requires e < |s| && IsOrder(s, GetOrder(s))
    ensures var order := GetOrder(s); var v := s[order[e]];
      Tally(Reordered(s, order), 0, e, v) == Tally(s, 0, order[e], v)
  {
    var order := GetOrder(s);
    var i := order[e];
    var v := s[i];
    var t := Reordered(s, order);
    OrderDistinct(s, order);
    TallyIsSize(t, 0, e, v);
    TallyIsSize(s, 0, i, v);
    Trichotomy(v, v);
    var image := Spots(s, 0, i, v);
    forall j | j in image ensures exists g :: g in Spots(t, 0, e, v) && order[g] == j {
      assert j in order;
      var g: nat :| g < |order| && order[g] == j;
      assert g < e;
    }
    forall g | g in Spots(t, 0, e, v) ensures order[g] in image {
      assert Sooner(s, order[g], i);
    }
    SizeOfImage(Spots(t, 0, e, v), image, order);
  }

  lemma WholeTally(s: seq<Value>, v: Value)
    requires IsOrder(s, GetOrder(s))
    ensures Tally(Reordered(s, GetOrder(s)), 0, |s|, v) == Tally(s, 0, |s|, v)
  {
    var order := GetOrder(s);
    var t := Reordered(s, order);
    OrderDistinct(s, order);
    TallyIsSize(t, 0, |s|, v);
    TallyIsSize(s, 0, |s|, v);
    forall j | j in Spots(s, 0, |s|, v) ensures exists g :: g in Spots(t, 0, |s|, v) && order[g] == j {
      assert j in order;
      var g: nat :| g < |order| && order[g] == j;
    }
    SizeOfImage(Spots(t, 0, |s|, v), Spots(s, 0, |s|, v), order);
  }

  lemma SortedCopy(s: seq<Value>)
    ensures IsOrder(s, GetOrder(s)) && |GetOrder(s)| == |s|
    ensures NonDescending(Reordered(s, GetOrder(s)))
  {
    OrderIsOrder(s);
    var order := GetOrder(s);
    forall i, j | 0 <= i < j < |s| ensures !Before(s[order[j]], s[order[i]]) {
      Trichotomy(s[order[i]], s[order[j]]);
    }
  }

  // ---- Back to the original order ----

  /** Comparison of two zipper entries: elements of a first, each side by its original position. */
  function MergeFun(x: int, y: int, orderA: seq<nat>, orderB: seq<nat>): int
    requires -|orderB| <= x < |orderA| && -|orderB| <= y < |orderA|
  {
    if x < 0 then
      if y < 0 then orderB[-x - 1] as int - orderB[-y - 1] as int else 1
    else
      if y < 0 then -1 else orderA[x] as int - orderA[y] as int
  }

  ghost predicate Entries(z: seq<int>, orderA: seq<nat>, orderB: seq<nat>) {
    forall k :: 0 <= k < |z| ==> -|orderB| <= z[k] < |orderA|
  }

  ghost predicate InOrder(z: seq<int>, orderA: seq<nat>, orderB: seq<nat>)
    requires Entries(z, orderA, orderB)
  {
    forall k, l :: 0 <= k < l < |z| ==> MergeFun(z[k], z[l], orderA, orderB) <= 0
  }

  function InsertEntry(z: seq<int>, y: int, orderA: seq<nat>, orderB: seq<nat>): (r: seq<int>)
    requires Entries(z, orderA, orderB) && -|orderB| <= y < |orderA|
    ensures |r| == |z| + 1 && Entries(r, orderA, orderB) && multiset(r) == multiset(z) + multiset{y}
  {
    if z == [] then [y]
    else
      var last := z[|z| - 1];
      assert z == z[..|z| - 1] + [last];
      if MergeFun(y, last, orderA, orderB) < 0 then InsertEntry(z[..|z| - 1], y, orderA, orderB) + [last]
      else z + [y]
  }

  lemma InsertEntryAt(z: seq<int>, y: int, orderA: seq<nat>, orderB: seq<nat>)
    requires Entries(z, orderA, orderB) && -|orderB| <= y < |orderA|
    requires z != [] && MergeFun(y, z[|z| - 1], orderA, orderB) < 0
    ensures InsertEntry(z, y, orderA, orderB) == InsertEntry(z[..|z| - 1], y, orderA, orderB) + [z[|z| - 1]]
  {
  }

  lemma {:induction false} InsertInOrder(z: seq<int>, y: int, orderA: seq<nat>, orderB: seq<nat>)
    requires Entries(z, orderA, orderB) && -|orderB| <= y < |orderA| && InOrder(z, orderA, orderB)
    ensures InOrder(InsertEntry(z, y, orderA, orderB), orderA, orderB)
  {
    if z != [] {
      var last := z[|z| - 1];
      if MergeFun(y, last, orderA, orderB) < 0 {
        var shorter := z[..|z| - 1];
        InsertInOrder(shorter, y, orderA, orderB);
        var r := InsertEntry(shorter, y, orderA, orderB);
        hide MergeFun, InsertEntry;
        forall k | 0 <= k < |r| ensures MergeFun(r[k], last, orderA, orderB) <= 0 {
          assert r[k] in multiset(shorter) + multiset{y};
          if r[k] != y {
            assert r[k] in shorter;
            var l :| 0 <= l < |shorter| && shorter[l] == r[k];
          }
        }
        assert InsertEntry(z, y, orderA, orderB) == r + [last] by { InsertEntryAt(z, y, orderA, orderB); }
      }
    }
  }

  /** The sort of the zipper; the sorting template itself is not part of this model. */
  function SortZipper(z: seq<int>, orderA: seq<nat>, orderB: seq<nat>): (r: seq<int>)
    requires Entries(z, orderA, orderB)
    ensures |r| == |z| && Entries(r, orderA, orderB) && multiset(r) == multiset(z)
  {
    if z == [] then []
    else
      assert z == z[..|z| - 1] + [z[|z| - 1]];
      InsertEntry(SortZipper(z[..|z| - 1], orderA, orderB), z[|z| - 1], orderA, orderB)
  }

  lemma {:induction false} SortedZipper(z: seq<int>, orderA: seq<nat>, orderB: seq<nat>)
    requires Entries(z, orderA, orderB)
    ensures InOrder(SortZipper(z, orderA, orderB), orderA, orderB)
  {
    if z != [] {
      SortedZipper(z[..|z| - 1], orderA, orderB);
      InsertInOrder(SortZipper(z[..|z| - 1], orderA, orderB), z[|z| - 1], orderA, orderB);
    }
  }

  lemma LargestIsLast(u: seq<nat>, i: nat)
    requires i in u && forall k :: 0 <= k < |u| ==> u[k] <= i
    requires forall k, l :: 0 <= k < l < |u| ==> u[k] < u[l]
    ensures u[|u| - 1] == i
  {
    var k :| 0 <= k < |u| && u[k] == i;
  }

  /** Strictly ascending indices that are exactly those of the elements that stay spell out the
      kept part. */
  lemma {:induction false} Spells(s: seq<Value>, t: seq<Value>, op: Op, left: bool, u: seq<nat>, n: nat)
    requires n <= |s| && (forall k :: 0 <= k < |u| ==> u[k] < n)
    requires forall k, l :: 0 <= k < l < |u| ==> u[k] < u[l]
    requires forall i :: 0 <= i < n ==> (i in u <==> Stays(op, left, Tally(s, 0, i, s[i]), Tally(t, 0, |t|, s[i])))
    ensures |u| == |Kept(s, t, op, left, n)|
    ensures forall k :: 0 <= k < |u| ==> s[u[k]] == Kept(s, t, op, left, n)[k]
  {
    hide Stays, Tally;
    if n == 0 {
      assert u == [];
    } else {
      var i: nat := n - 1;
      if i in u {
        LargestIsLast(u, i);
        var v := u[..|u| - 1];
        assert u == v + [i];
        assert forall j :: 0 <= j < i ==> (j in u <==> j in v);
        Spells(s, t, op, left, v, i);
      } else {
        assert forall k :: 0 <= k < |u| ==> u[k] in u;
        Spells(s, t, op, left, u, i);
      }
    }
  }

  // ---- The whole operation ----

  /** The elements named by a zipper. */
  function Zipped(z: seq<int>, a: seq<Value>, b: seq<Value>): (r: seq<Value>)
    requires forall k :: 0 <= k < |z| ==> -|b| <= z[k] < |a|
    ensures |r| == |z|
  {
    seq(|z|, k requires 0 <= k < |z| => if z[k] >= 0 then a[z[k]] else b[-z[k] - 1])
  }

  method ArrayZip(a: seq<Value>, b: seq<Value>, z: seq<int>) returns (r: seq<Value>)
    requires forall k :: 0 <= k < |z| ==> -|b| <= z[k] < |a|
    ensures r == Zipped(z, a, b)
  {
    r := [];
    var e := 0;
    while e < |z|
      invariant 0 <= e <= |z| && |r| == e
      invariant forall k :: 0 <= k < e ==> r[k] == Zipped(z, a, b)[k]
    {
      r := r + [if z[e] >= 0 then a[z[e]] else b[-z[e] - 1]];
      e := e + 1;
    }
  }

  /** How many entries of a sorted zipper belong to a; they come first. */
  lemma Border(z: seq<int>, orderA: seq<nat>, orderB: seq<nat>) returns (m: nat)
    requires Entries(z, orderA, orderB) && InOrder(z, orderA, orderB)
    ensures m <= |z| && (forall k :: 0 <= k < m ==> z[k] >= 0) && (forall k :: m <= k < |z| ==> z[k] < 0)
  {
    m := 0;
    while m < |z| && z[m] >= 0
      invariant m <= |z| && forall k :: 0 <= k < m ==> z[k] >= 0
    {
      m := m + 1;
    }
    if m < |z| {
      forall k | m < k < |z| ensures z[k] < 0 {
        assert MergeFun(z[m], z[k], orderA, orderB) <= 0;
      }
    }
  }

  /** es lists the positions in ts of the elements that stay. */
  ghost predicate Positions(ts: seq<Value>, tt: seq<Value>, op: Op, left: bool, es: seq<nat>) {
    forall e :: 0 <= e < |ts| ==>
      (e in es <==> Stays(op, left, Tally(ts, 0, e, ts[e]), Tally(tt, 0, |tt|, ts[e])))
  }

  /** The two halves of a zipper. */
  lemma ZipperPositions(ta: seq<Value>, tb: seq<Value>, op: Op, z: seq<int>, u: seq<nat>, w: seq<nat>)
    requires IsZipper(ta, tb, op, z)
    requires forall e: nat :: e in u <==> e in z
    requires forall e: nat :: e in w <==> Inv(e) in z
    ensures Positions(ta, tb, op, true, u) && Positions(tb, ta, op, false, w)
  {
    hide Tally, StaysA, StaysB;
  }

  /** Sorted positions of exactly the elements that stay, listed by original position, spell out
      the kept part of s. */
  lemma Side(s: seq<Value>, t: seq<Value>, op: Op, left: bool, es: seq<nat>)
    requires IsOrder(s, GetOrder(s)) && IsOrder(t, GetOrder(t))
    requires forall k :: 0 <= k < |es| ==> es[k] < |s|
    requires forall k, l :: 0 <= k < l < |es| ==> GetOrder(s)[es[k]] < GetOrder(s)[es[l]]
    requires Positions(Reordered(s, GetOrder(s)), Reordered(t, GetOrder(t)), op, left, es)
    ensures |es| == |Kept(s, t, op, left, |s|)|
    ensures forall k :: 0 <= k < |es| ==> Reordered(s, GetOrder(s))[es[k]] == Kept(s, t, op, left, |s|)[k]
  {
    var order := GetOrder(s);
    hide GetOrder, Tally, Stays, Sooner, Kept;
    OrderDistinct(s, order);
    var u := seq(|es|, k requires 0 <= k < |es| => order[es[k]]);
    forall i | 0 <= i < |s| ensures i in u <==> Stays(op, left, Tally(s, 0, i, s[i]), Tally(t, 0, |t|, s[i])) {
      assert i in order;
      var e: nat :| e < |s| && order[e] == i;
      SortedTally(s, e);
      WholeTally(t, s[i]);
      if e in es {
        var k :| 0 <= k < |es| && es[k] == e;
        assert u[k] == i;
      }
      if i in u {
        var k :| 0 <= k < |u| && u[k] == i;
        assert es[k] == e;
      }
    }
    Spells(s, t, op, left, u, |s|);
  }

  lemma Ascending(z: seq<int>, orderA: seq<nat>, orderB: seq<nat>, k: nat, l: nat)
    requires Entries(z, orderA, orderB) && InOrder(z, orderA, orderB) && Unique(z) && k < l < |z|
    requires forall e, f :: 0 <= e < f < |orderA| ==> orderA[e] != orderA[f]
    requires forall e, f :: 0 <= e < f < |orderB| ==> orderB[e] != orderB[f]
    ensures z[k] >= 0 && z[l] >= 0 ==> orderA[z[k]] < orderA[z[l]]
    ensures z[k] < 0 && z[l] < 0 ==> orderB[-z[k] - 1] < orderB[-z[l] - 1]
  {
    assert MergeFun(z[k], z[l], orderA, orderB) <= 0;
  }

  /** Splits a sorted zipper into the positions it names in either array. */
  lemma SplitShape(z: seq<int>, orderA: seq<nat>, orderB: seq<nat>) returns (u: seq<nat>, w: seq<nat>)
    requires Entries(z, orderA, orderB) && InOrder(z, orderA, orderB)
    ensures |u| + |w| == |z|
    ensures forall k :: 0 <= k < |u| ==> u[k] == z[k] && u[k] < |orderA|
    ensures forall k :: 0 <= k < |w| ==> Inv(w[k]) == z[|u| + k] && w[k] < |orderB|
    ensures forall e: nat :: e in u <==> e in z
    ensures forall e: nat :: e in w <==> Inv(e) in z
  {
    var m := Border(z, orderA, orderB);
    hide InOrder;
    u := seq(m, k requires 0 <= k < m => z[k]);
    w := seq(|z| - m, k requires 0 <= k < |z| - m => -z[m + k] - 1);
    SidesOf(z, m, u, w);
  }

  lemma Split(z: seq<int>, orderA: seq<nat>, orderB: seq<nat>) returns (u: seq<nat>, w: seq<nat>)
    requires Entries(z, orderA, orderB) && InOrder(z, orderA, orderB) && Unique(z)
    requires forall e, f :: 0 <= e < f < |orderA| ==> orderA[e] != orderA[f]
    requires forall e, f :: 0 <= e < f < |orderB| ==> orderB[e] != orderB[f]
    ensures |u| + |w| == |z|
    ensures forall k :: 0 <= k < |u| ==> u[k] == z[k] && u[k] < |orderA|
    ensures forall k :: 0 <= k < |w| ==> Inv(w[k]) == z[|u| + k] && w[k] < |orderB|
    ensures forall k, l :: 0 <= k < l < |u| ==> orderA[u[k]] < orderA[u[l]]
    ensures forall k, l :: 0 <= k < l < |w| ==> orderB[w[k]] < orderB[w[l]]
    ensures forall e: nat :: e in u <==> e in z
    ensures forall e: nat :: e in w <==> Inv(e) in z
  {
    hide InOrder, Unique;
    u, w := SplitShape(z, orderA, orderB);
    forall k, l | 0 <= k < l < |u| ensures orderA[u[k]] < orderA[u[l]] {
      Ascending(z, orderA, orderB, k, l);
    }
    forall k, l | 0 <= k < l < |w| ensures orderB[w[k]] < orderB[w[l]] {
      Ascending(z, orderA, orderB, |u| + k, |u| + l);
    }
  }

  /** The sorted zipper spells out the kept elements of a and then those of b. */
  lemma SortedZipperSpells(a: seq<Value>, b: seq<Value>, op: Op, z: seq<int>)
    requires var oa, ob := GetOrder(a), GetOrder(b);
      && IsOrder(a, oa) && IsOrder(b, ob) && Entries(z, oa, ob) && InOrder(z, oa, ob)
      && IsZipper(Reordered(a, oa), Reordered(b, ob), op, z)
    ensures Zipped(z, Reordered(a, GetOrder(a)), Reordered(b, GetOrder(b))) == Merged(a, b, op)
  {
    var oa, ob := GetOrder(a), GetOrder(b);
    hide GetOrder, Sooner, InOrder, MergeFun, Kept, Positions, Stays;
    OrderDistinct(a, oa);
    OrderDistinct(b, ob);
    var ta, tb := Reordered(a, oa), Reordered(b, ob);
    var u, w := Split(z, oa, ob);
    ZipperPositions(ta, tb, op, z, u, w);
    hide IsZipper, IsOrder;
    Side(a, b, op, true, u);
    Side(b, a, op, false, w);
    Assemble(z, ta, tb, u, w, Kept(a, b, op, true, |a|), Kept(b, a, op, false, |b|));
  }

  lemma Assemble(z: seq<int>, ta: seq<Value>, tb: seq<Value>, u: seq<nat>, w: seq<nat>, ka: seq<Value>, kb: seq<Value>)
    requires forall k :: 0 <= k < |z| ==> -|tb| <= z[k] < |ta|
    requires |u| == |ka| && |w| == |kb| && |u| + |w| == |z|
    requires forall k :: 0 <= k < |u| ==> u[k] == z[k] && ta[u[k]] == ka[k]
    requires forall k :: 0 <= k < |w| ==> Inv(w[k]) == z[|u| + k] && w[k] < |tb| && tb[w[k]] == kb[k]
    ensures Zipped(z, ta, tb) == ka + kb
  {
    forall k | |u| <= k < |z| ensures Zipped(z, ta, tb)[k] == kb[k - |u|] {
      assert z[|u| + (k - |u|)] == Inv(w[k - |u|]);
    }
  }

  lemma SidesOf(z: seq<int>, m: nat, u: seq<nat>, w: seq<nat>)
    requires m <= |z| && (forall k :: 0 <= k < m ==> z[k] >= 0) && (forall k :: m <= k < |z| ==> z[k] < 0)
    requires |u| == m && (forall k :: 0 <= k < m ==> u[k] == z[k])
    requires |w| == |z| - m && (forall k :: 0 <= k < |w| ==> w[k] == -z[m + k] - 1)
    ensures forall e: nat :: e in u <==> e in z
    ensures forall e: nat :: e in w <==> Inv(e) in z
  {
    forall e: nat ensures (e in z ==> e in u) && (Inv(e) in z ==> e in w) {
      if e in z {
        var k :| 0 <= k < |z| && z[k] == e;
        assert u[k] == e;
      }
      if Inv(e) in z {
        var k :| 0 <= k < |z| && z[k] == Inv(e);
        assert w[k - m] == e;
      }
    }
    forall e: nat | e in w ensures Inv(e) in z {
      var k :| 0 <= k < |w| && w[k] == e;
      assert z[m + k] == Inv(e);
    }
  }

  /** Merges two arrays as sets and puts the result back in the order they had. */
  method MergeArrayWithOrder(a: seq<Value>, b: seq<Value>, op: Op, typesA: TypeField, typesB: TypeField)
    returns (r: seq<Value>)
    requires Covers(typesA, a) && Covers(typesB, b)
    ensures r == Merged(a, b, op)
  {
    hide Merged, IsOrder, IsZipper, NonDescending, GetOrder, InOrder;
    var orderA := GetOrder(a);
    var orderB := GetOrder(b);
    SortedCopy(a);
    SortedCopy(b);
    assert forall e :: 0 <= e < |a| ==> orderA[e] < |a| by { OrderIsOrder(a); OrderBounds(a); }
    assert forall e :: 0 <= e < |b| ==> orderB[e] < |b| by { OrderIsOrder(b); OrderBounds(b); }
    var tmpA := Reordered(a, orderA);
    var tmpB := Reordered(b, orderB);
    var zipper := Merge(tmpA, tmpB, op, typesA, typesB);
    ZipperEntries(tmpA, tmpB, op, zipper);
    SortedZipper(zipper, orderA, orderB);
    var sorted := SortZipper(zipper, orderA, orderB);
    SameZipper(tmpA, tmpB, op, zipper, sorted);
    r := ArrayZip(tmpA, tmpB, sorted);
    SortedZipperSpells(a, b, op, sorted);
  }

  lemma OrderBounds(s: seq<Value>)
    requires IsOrder(s, GetOrder(s))
    ensures |GetOrder(s)| == |s| && forall e :: 0 <= e < |s| ==> GetOrder(s)[e] < |s|
  {
  }

  lemma ZipperEntries(a: seq<Value>, b: seq<Value>, op: Op, z: seq<int>)
    requires IsZipper(a, b, op, z)
    ensures forall k :: 0 <= k < |z| ==> -|b| <= z[k] < |a|
  {
    assert forall k :: 0 <= k < |z| ==> z[k] in z;
  }

  /** Sorting does not change what a zipper says. */
  lemma SameZipper(a: seq<Value>, b: seq<Value>, op: Op, z: seq<int>, y: seq<int>)
    requires IsZipper(a, b, op, z) && multiset(y) == multiset(z)
    ensures IsZipper(a, b, op, y)
  {
    assert forall x :: x in y <==> x in z by {
      forall x ensures x in y <==> x in z {
        assert x in y <==> x in multiset(y);
        assert x in z <==> x in multiset(z);
      }
    }
    UniqueCounts(z);
    CountsUnique(y);
  }

  lemma {:induction false} UniqueCounts(z: seq<int>)
    requires Unique(z)
    ensures forall x :: multiset(z)[x] <= 1
  {
    if z != [] {
      var rest := z[..|z| - 1];
      assert z == rest + [z[|z| - 1]];
      UniqueCounts(rest);
      assert z[|z| - 1] !in rest;
      assert z[|z| - 1] !in multiset(rest);
    }
  }

  lemma CountsUnique(y: seq<int>)
    requires forall x :: multiset(y)[x] <= 1
    ensures Unique(y)
  {
    forall k, l | 0 <= k < l < |y| ensures y[k] != y[l] {
      assert y == y[..l] + y[l..];
      var x := y[k];
      assert multiset(y)[x] == multiset(y[..l])[x] + multiset(y[l..])[x];
      assert y[..l][k] == x && x in y[..l] && x in multiset(y[..l]);
      var w := y[l];
      assert y[l..][0] == w && w in y[l..] && w in multiset(y[l..]);
    }
  }

  // ---- How often each value occurs ----

  lemma {:induction false} TallyIsMultiplicity(s: seq<Value>, lo: nat, hi: nat, v: Value)
    requires lo <= hi <= |s|
    ensures Tally(s, lo, hi, v) == multiset(s[lo..hi])[v]
    decreases hi - lo
  {
    if lo < hi {
      TallyIsMultiplicity(s, lo + 1, hi, v);
      assert s[lo..hi] == [s[lo]] + s[lo + 1..hi];
    }
  }

  function TimesKept(op: Op, left: bool, m: nat, c: nat): nat {
    match op
    case And => if left then 0 else if m < c then m else c
    case AndLeft => if !left then 0 else if m < c then m else c
    case Or => if !left then m else if m < c then 0 else m - c
    case OrLeft => if left then m else if m < c then 0 else m - c
    case Xor => if m < c then 0 else m - c
    case Add => m
    case Sub => if left && c == 0 then m else 0
  }

  lemma TimesStep(op: Op, left: bool, m: nat, c: nat)
    ensures TimesKept(op, left, m + 1, c) == TimesKept(op, left, m, c) + if Stays(op, left, m, c) then 1 else 0
  {
  }

  lemma KeptStep(s: seq<Value>, t: seq<Value>, op: Op, left: bool, n: nat, v: Value)
    requires n < |s|
    ensures var m, c := multiset(s[..n])[v], multiset(t)[v];
      multiset(Kept(s, t, op, left, n + 1))[v] == multiset(Kept(s, t, op, left, n))[v]
      + if s[n] == v && Stays(op, left, m, c) then 1 else 0
    ensures multiset(s[..n + 1])[v] == multiset(s[..n])[v] + if s[n] == v then 1 else 0
  {
    TallyIsMultiplicity(s, 0, n, s[n]);
    TallyIsMultiplicity(t, 0, |t|, s[n]);
    assert t[0..|t|] == t && s[0..n] == s[..n] && s[..n + 1] == s[..n] + [s[n]];
    hide Tally, Stays;
  }

  lemma {:induction false} KeptTimes(s: seq<Value>, t: seq<Value>, op: Op, left: bool, n: nat, v: Value)
    requires n <= |s|
    ensures multiset(Kept(s, t, op, left, n))[v] == TimesKept(op, left, multiset(s[..n])[v], multiset(t)[v])
  {
    hide Tally, Stays, Kept, TimesKept;
    if n == 0 {
      KeptNothing(s, t, op, left, v);
    } else {
      KeptTimes(s, t, op, left, n - 1, v);
      KeptStep(s, t, op, left, n - 1, v);
      TimesStep(op, left, multiset(s[..n - 1])[v], multiset(t)[v]);
    }
  }

  lemma KeptNothing(s: seq<Value>, t: seq<Value>, op: Op, left: bool, v: Value)
    ensures multiset(Kept(s, t, op, left, 0))[v] == TimesKept(op, left, multiset(s[..0])[v], multiset(t)[v])
  {
  }

  /** Intersection keeps the smaller number of copies, union the greater, symmetric difference the
      difference, addition the sum; subtraction keeps all or none. */
  lemma MultiplicityLaw(a: seq<Value>, b: seq<Value>, op: Op, v: Value)
    ensures multiset(Merged(a, b, op))[v] == Times(op, multiset(a)[v], multiset(b)[v])
  {
    KeptTimes(a, b, op, true, |a|, v);
    KeptTimes(b, a, op, false, |b|, v);
    assert a[..|a|] == a && b[..|b|] == b;
  }

  // ---- Which copies stay, and in which order ----

  ghost predicate Places(p: seq<nat>, n: nat) {
    (forall k :: 0 <= k < |p| ==> p[k] < n) && forall k, l :: 0 <= k < l < |p| ==> p[k] < p[l]
  }

  /** The elements of s at the places p. */
  function Picked(s: seq<Value>, p: seq<nat>): (r: seq<Value>)
    requires forall k :: 0 <= k < |p| ==> p[k] < |s|
    ensures |r| == |p| && forall k :: 0 <= k < |p| ==> r[k] == s[p[k]]
  {
    seq(|p|, k requires 0 <= k < |p| => s[p[k]])
  }

  /** What is kept of s[..n] is picked from it in order. */
  lemma {:induction false} KeptPicks(s: seq<Value>, t: seq<Value>, op: Op, left: bool, n: nat) returns (p: seq<nat>)
    requires n <= |s|
    ensures Places(p, n) && Kept(s, t, op, left, n) == Picked(s, p)
    ensures forall i :: 0 <= i < n ==> (i in p <==> Stays(op, left, multiset(s[..i])[s[i]], multiset(t)[s[i]]))
  {
    p := [];
    if n > 0 {
      var i: nat := n - 1;
      p := KeptPicks(s, t, op, left, i);
      KeptNext(s, t, op, left, i);
      hide Kept, Stays;
      PickedPush(s, p, i);
      if Stays(op, left, multiset(s[..i])[s[i]], multiset(t)[s[i]]) {
        p := p + [i];
      }
    }
  }

  lemma KeptNext(s: seq<Value>, t: seq<Value>, op: Op, left: bool, i: nat)
    requires i < |s|
    ensures Kept(s, t, op, left, i + 1) ==
            Kept(s, t, op, left, i) + if Stays(op, left, multiset(s[..i])[s[i]], multiset(t)[s[i]]) then [s[i]] else []
  {
    TallyIsMultiplicity(s, 0, i, s[i]);
    TallyIsMultiplicity(t, 0, |t|, s[i]);
    assert s[0..i] == s[..i] && t[0..|t|] == t;
    hide Tally, Stays;
  }

  lemma PickedPush(s: seq<Value>, p: seq<nat>, i: nat)
    requires Places(p, i) && i < |s|
    ensures Places(p, i + 1) && Places(p + [i], i + 1) && Picked(s, p + [i]) == Picked(s, p) + [s[i]]
    ensures i !in p && forall k :: k in p + [i] <==> k in p || k == i
  {
  }

  lemma {:induction false} KeptAll(s: seq<Value>, t: seq<Value>, op: Op, left: bool, n: nat)
    requires n <= |s| && forall i :: 0 <= i < n ==> Stays(op, left, Tally(s, 0, i, s[i]), Tally(t, 0, |t|, s[i]))
    ensures Kept(s, t, op, left, n) == s[..n]
  {
    hide Stays, Tally;
    if n > 0 {
      KeptAll(s, t, op, left, n - 1);
      assert s[..n] == s[..n - 1] + [s[n - 1]];
    }
  }

  lemma {:induction false} KeptNone(s: seq<Value>, t: seq<Value>, op: Op, left: bool, n: nat)
    requires n <= |s| && forall i :: 0 <= i < n ==> !Stays(op, left, Tally(s, 0, i, s[i]), Tally(t, 0, |t|, s[i]))
    ensures Kept(s, t, op, left, n) == []
  {
    hide Stays, Tally;
    if n > 0 {
      KeptNone(s, t, op, left, n - 1);
    }
  }

  /** Union that prefers a: all of a in front, then what b has more copies of. */
  lemma OrLeftOrder(a: seq<Value>, b: seq<Value>) returns (q: seq<nat>)
    ensures Places(q, |b|) && Merged(a, b, OrLeft) == a + Picked(b, q)
    ensures forall j :: 0 <= j < |b| ==> (j in q <==> multiset(b[..j])[b[j]] >= multiset(a)[b[j]])
  {
    q := KeptPicks(b, a, OrLeft, false, |b|);
    KeptAll(a, b, OrLeft, true, |a|);
    hide Kept;
    assert a[..|a|] == a;
  }

  /** Union that prefers b: what a has more copies of, then all of b. */
  lemma OrOrder(a: seq<Value>, b: seq<Value>) returns (p: seq<nat>)
    ensures Places(p, |a|) && Merged(a, b, Or) == Picked(a, p) + b
    ensures forall i :: 0 <= i < |a| ==> (i in p <==> multiset(a[..i])[a[i]] >= multiset(b)[a[i]])
  {
    p := KeptPicks(a, b, Or, true, |a|);
    KeptAll(b, a, Or, false, |b|);
    hide Kept;
    assert b[..|b|] == b;
  }

  /** Intersection that prefers a: of each value the first copies in a, as many as b has at most. */
  lemma AndLeftOrder(a: seq<Value>, b: seq<Value>) returns (p: seq<nat>)
    ensures Places(p, |a|) && Merged(a, b, AndLeft) == Picked(a, p)
    ensures forall i :: 0 <= i < |a| ==> (i in p <==> multiset(a[..i])[a[i]] < multiset(b)[a[i]])
  {
    p := KeptPicks(a, b, AndLeft, true, |a|);
    KeptNone(b, a, AndLeft, false, |b|);
    hide Kept;
  }

  /** Intersection that prefers b: the same with the arrays exchanged. */
  lemma AndOrder(a: seq<Value>, b: seq<Value>) returns (q: seq<nat>)
    ensures Places(q, |b|) && Merged(a, b, And) == Picked(b, q)
    ensures forall j :: 0 <= j < |b| ==> (j in q <==> multiset(b[..j])[b[j]] < multiset(a)[b[j]])
  {
    q := KeptPicks(b, a, And, false, |b|);
    KeptNone(a, b, And, true, |a|);
    hide Kept;
  }

  /** Symmetric difference: what a has more copies of, then what b has more copies of. */
  lemma XorOrder(a: seq<Value>, b: seq<Value>) returns (p: seq<nat>, q: seq<nat>)
    ensures Places(p, |a|) && Places(q, |b|) && Merged(a, b, Xor) == Picked(a, p) + Picked(b, q)
    ensures forall i :: 0 <= i < |a| ==> (i in p <==> multiset(a[..i])[a[i]] >= multiset(b)[a[i]])
    ensures forall j :: 0 <= j < |b| ==> (j in q <==> multiset(b[..j])[b[j]] >= multiset(a)[b[j]])
  {
    p := KeptPicks(a, b, Xor, true, |a|);
    q := KeptPicks(b, a, Xor, false, |b|);
    hide Kept;
  }

  lemma NoTally(s: seq<Value>, v: Value)
    requires v !in s
    ensures Tally(s, 0, |s|, v) == 0
  {
    TallyIsMultiplicity(s, 0, |s|, v);
    assert s[0..|s|] == s;
  }

  /** Addition, and the unions of arrays with nothing in common: one array behind the other. */
  lemma NothingInCommon(a: seq<Value>, b: seq<Value>, op: Op)
    requires op == Add || (op in {Or, OrLeft, Xor} && forall i :: 0 <= i < |a| ==> a[i] !in b)
    ensures Merged(a, b, op) == a + b
  {
    if op != Add {
      forall i | 0 <= i < |a| ensures Tally(b, 0, |b|, a[i]) == 0 {
        NoTally(b, a[i]);
      }
      forall j | 0 <= j < |b| ensures Tally(a, 0, |a|, b[j]) == 0 {
        NoTally(a, b[j]);
      }
    }
    hide Tally;
    KeptAll(a, b, op, true, |a|);
    KeptAll(b, a, op, false, |b|);
    assert a[..|a|] == a && b[..|b|] == b;
  }

  /** Subtraction: the elements of a that are not in b, in order. */
  lemma SubOrder(a: seq<Value>, b: seq<Value>) returns (p: seq<nat>)
    ensures Places(p, |a|) && Merged(a, b, Sub) == Picked(a, p)
    ensures forall i :: 0 <= i < |a| ==> (i in p <==> a[i] !in b)
  {
    p := KeptPicks(a, b, Sub, true, |a|);
    KeptNone(b, a, Sub, false, |b|);
    hide Kept;
    forall i | 0 <= i < |a| ensures i in p <==> a[i] !in b {
      assert a[i] in multiset(b) <==> a[i] in b;
    }
  }

  /** a without the values of b. */
  function Without(a: seq<Value>, b: seq<Value>): seq<Value> {
    if a == [] then []
    else Without(a[..|a| - 1], b) + if a[|a| - 1] in b then [] else [a[|a| - 1]]
  }

  lemma {:induction false} KeptSub(a: seq<Value>, b: seq<Value>, n: nat)
    requires n <= |a|
    ensures Kept(a, b, Sub, true, n) == Without(a[..n], b)
  {
    if n > 0 {
      KeptSub(a, b, n - 1);
      assert a[..n][..n - 1] == a[..n - 1];
      TallyIsMultiplicity(b, 0, |b|, a[n - 1]);
      assert b[0..|b|] == b;
    }
  }

  /** Subtraction by merging is plain removal. */
  lemma SubIsWithout(a: seq<Value>, b: seq<Value>)
    ensures Merged(a, b, Sub) == Without(a, b)
  {
    KeptSub(a, b, |a|);
    KeptNone(b, a, Sub, false, |b|);
    assert a[..|a|] == a;
  }

  /** Arrays without a common type have no common value to remove. */
  lemma {:induction false} NothingToRemove(a: seq<Value>, b: seq<Value>)
    requires forall i :: 0 <= i < |a| ==> a[i] !in b
    ensures Without(a, b) == a
  {
    if a != [] {
      NothingToRemove(a[..|a| - 1], b);
    }
  }
}
