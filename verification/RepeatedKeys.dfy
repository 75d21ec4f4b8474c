/** What repeated keys do to the search of replace(): when exactly they are harmless, and how they harm. */
module RepeatedKeys {
  import opened Strings
  import opened ReplaceMany

  // ---- Where copies stand ----

  /** Copies of a key stand side by side. */
  lemma {:induction false} Block(keys: seq<Str>, x: Str) returns (f: nat, n: nat)
    requires Ordered(keys)
    ensures n == multiset(keys)[x] && f + n <= |keys|
    ensures forall i :: 0 <= i < |keys| ==> (keys[i] == x <==> f <= i < f + n)
  {
    if keys == [] {
      f, n := 0, 0;
    } else {
      var front, last := keys[..|keys| - 1], keys[|keys| - 1];
      assert keys == front + [last];
      f, n := Block(front, x);
      if last == x {
        if n == 0 {
          f := |front|;
        } else if f + n < |front| {
          assert front[f] == keys[f] && front[|front| - 1] == keys[|front| - 1];
          Total(keys[|front| - 1], x);
        }
        n := n + 1;
      }
    }
  }

  /** Earlier links do not change. */
  lemma {:induction false} LinksPrefix(keys: seq<Str>, n: nat, e: nat)
    requires e < n <= |keys|
    ensures Links(keys, n)[e] == ParentOf(keys, Links(keys, e), e)
  {
    if e < n - 1 {
      LinksPrefix(keys, n - 1, e);
    }
  }

  lemma {:induction false} ChainIsLink(keys: seq<Str>, prefix: seq<int>, d: int, bound: int)
    requires -1 <= d < |prefix| <= |keys| && Backwards(prefix)
    ensures var r := Chain(keys, prefix, d, bound);
      r == -1 || r == d || r in prefix
    decreases d
  {
    if d >= 0 && |keys[d]| >= bound {
      ChainIsLink(keys, prefix, prefix[d], bound);
    }
  }

  /** Only the last copy of a key is ever linked to. */
  lemma {:induction false} LinkIsLastCopy(keys: seq<Str>, n: nat, d: nat)
    requires Ordered(keys) && n <= |keys| && d in Links(keys, n)
    ensures d + 1 < n && keys[d] != keys[d + 1]
  {
    var prefix, e := Links(keys, n - 1), n - 1;
    if d in prefix {
      LinkIsLastCopy(keys, n - 1, d);
    } else {
      assert d == ParentOf(keys, prefix, e);
      LinksSound(keys, n - 1);
      ParentSound(keys, prefix, e);
      ChainIsLink(keys, prefix, e - 1, BinaryPrefix(keys[e], keys[e - 1]));
    }
  }

  // ---- Two ways to go wrong ----

  lemma StopsAt(keys: seq<Str>, prefix: seq<int>, isPrefix: seq<bool>, t: Str, lo: nat, hi: nat)
    requires |prefix| == |isPrefix| == |keys| && Backwards(prefix) && lo < hi <= |keys|
    requires var c := (lo + hi) / 2; keys[c] <= t && !isPrefix[c]
    ensures Step(t, keys, prefix, isPrefix, Go(lo, hi, -1, -1)) == Stop((lo + hi) / 2)
  {
    CompareCut(keys[(lo + hi) / 2], t);
    hide Compare, Below, Above;
  }

  /** The search probes a copy that is not the last one, and the key begins the text: it stops there, as
      the copy is not flagged. */
  lemma StopsTooEarly(keys: seq<Str>, isPrefix: seq<bool>, t: Str, lo: nat, hi: nat)
    requires Ordered(keys) && |isPrefix| == |keys| && Flags(Links(keys, |keys|), isPrefix) && lo < hi <= |keys|
    requires var c := (lo + hi) / 2; c + 1 < |keys| && keys[c] == keys[c + 1] && keys[c] <= t
    ensures Search(t, keys, Links(keys, |keys|), isPrefix, Go(lo, hi, -1, -1)) == (lo + hi) / 2
  {
    hide Search, Step, Links;
    var c, prefix := (lo + hi) / 2, Links(keys, |keys|);
    if isPrefix[c] {
      LinkIsLastCopy(keys, |keys|, c);
    }
    StopsAt(keys, prefix, isPrefix, t, lo, hi);
    SearchRound(t, keys, prefix, isPrefix, Go(lo, hi, -1, -1));
    SearchOver(t, keys, prefix, isPrefix, Stop(c));
  }

  /** The search probes a copy that is not the first one, below the text: it does not look at the keys that
      begin this one, as the copy has no parent. */
  lemma LosesParent(keys: seq<Str>, isPrefix: seq<bool>, t: Str, lo: nat, hi: nat)
    requires |isPrefix| == |keys| && lo < hi <= |keys|
    requires var c := (lo + hi) / 2; c > 0 && keys[c - 1] == keys[c] && Less(keys[c], t) && !(keys[c] <= t)
    ensures var r := Search(t, keys, Links(keys, |keys|), isPrefix, Go(lo, hi, -1, -1));
      r == -1 || r > (lo + hi) / 2
  {
    var c, prefix := (lo + hi) / 2, Links(keys, |keys|);
    CompareCut(keys[c], t);
    Total(keys[c], t);
    LinksPrefix(keys, |keys|, c);
    RepeatedHasNoParent(keys, Links(keys, c), c);
    hide Links, Search, Compare, Less, Common;
    assert Step(t, keys, prefix, isPrefix, Go(lo, hi, -1, -1)) == Go(c + 1, hi, -1, -1);
    hide Step;
    SearchRound(t, keys, prefix, isPrefix, Go(lo, hi, -1, -1));
  }

  /** Keys ab, ab, ab, ab, abc: in the text abc the search finds ab. */
  lemma StopsTooEarlyExample()
    ensures var keys := [[97, 98], [97, 98], [97, 98], [97, 98], [97, 98, 99]];
      var prefix := Links(keys, 5);
      Search([97, 98, 99], keys, prefix, FlagsOf(prefix, 5), Go(0, 5, -1, -1)) == 2
  {
    var keys := [[97, 98], [97, 98], [97, 98], [97, 98], [97, 98, 99]];
    PrefixLess([97, 98], [97, 98, 99]);
    Total([97, 98], [97, 98, 99]);
    Total([97, 98], [97, 98]);
    hide Less;
    assert Ordered(keys);
    FlagsAre(Links(keys, 5), 5);
    StopsTooEarly(keys, FlagsOf(Links(keys, 5), 5), [97, 98, 99], 0, 5);
  }

  /** Keys a, ab, ab, ab: in the text ac the search finds nothing. */
  lemma LosesParentExample()
    ensures var keys := [[97], [97, 98], [97, 98], [97, 98]];
      var prefix := Links(keys, 4);
      Search([97, 99], keys, prefix, FlagsOf(prefix, 4), Go(0, 4, -1, -1)) == -1
  {
    var keys := [[97], [97, 98], [97, 98], [97, 98]];
    var prefix := Links(keys, 4);
    var flags := FlagsOf(prefix, 4);
    LosesParent(keys, flags, [97, 99], 0, 4);
    LinksPrefix(keys, 4, 3);
    RepeatedHasNoParent(keys, Links(keys, 3), 3);
  }

  // ---- Repeating a key ----

  function Times(x: Str, m: nat): seq<Str> {
    seq(m, _ => x)
  }

  /** The non-empty strings are pairwise different. */
  ghost predicate DistinctFrom(from: seq<Str>) {
    forall i, j :: 0 <= i < j < |from| && from[i] != [] ==> from[i] != from[j]
  }

  /** For every text the search over the compiled strings finds the longest one that begins it. */
  ghost predicate SearchesRight(from: seq<Str>, to: seq<Str>) {
    && |from| == |to| && Compiled(CompileOf(from, to))
    && var ctx := CompileOf(from, to);
       forall t :: t != [] ==> LongestIn(Keys(ctx.v), 0, |ctx.v|, t, LookupOf(ctx, t))
  }

  /** Neither begins the other properly. */
  predicate Unrelated(x: Str, y: Str) {
    !(x < y) && !(y < x)
  }

  lemma {:induction false} NonEmptyBoth(v: seq<Str>, w: seq<Str>)
    ensures NonEmpty(v + w) == NonEmpty(v) + NonEmpty(w)
    decreases |w|
  {
    if w == [] {
      assert v + w == v;
    } else {
      NonEmptyBoth(v, w[..|w| - 1]);
      assert (v + w)[..|v + w| - 1] == v + w[..|w| - 1];
    }
  }

  lemma {:induction false} NonEmptyTimes(x: Str, m: nat)
    requires x != []
    ensures NonEmpty(Times(x, m)) == Times(x, m)
  {
    if m > 0 {
      NonEmptyTimes(x, m - 1);
      assert Times(x, m)[..m - 1] == Times(x, m - 1);
      assert Times(x, m) == Times(x, m - 1) + [x];
    }
  }

  lemma {:induction false} TimesCounts(x: Str, m: nat, y: Str)
    ensures multiset(Times(x, m))[y] == if y == x then m else 0
  {
    if m > 0 {
      TimesCounts(x, m - 1, y);
      assert Times(x, m) == Times(x, m - 1) + [x];
    }
  }

  lemma {:induction false} NonEmptyIs(from: seq<Str>)
    ensures forall x :: x in NonEmpty(from) <==> x != [] && x in from
    ensures |NonEmpty(from)| <= |from|
  {
    if from != [] {
      NonEmptyIs(from[..|from| - 1]);
      assert from == from[..|from| - 1] + [from[|from| - 1]];
    }
  }

  lemma {:induction false} DistinctCounts(from: seq<Str>, x: Str)
    requires DistinctFrom(from)
    ensures multiset(NonEmpty(from))[x] <= 1
  {
    if from != [] {
      var front, last := from[..|from| - 1], from[|from| - 1];
      DistinctCounts(front, x);
      NonEmptyIs(front);
      if x in NonEmpty(front) {
        assert x in front;
      }
      assert x !in NonEmpty(front) ==> multiset(NonEmpty(front))[x] == 0;
    }
  }

  /** How often the strings occur when x is repeated. */
  lemma RepeatedCounts(from: seq<Str>, x: Str, m: nat)
    requires x != []
    ensures forall y :: multiset(NonEmpty(from + Times(x, m)))[y] ==
                        multiset(NonEmpty(from))[y] + if y == x then m else 0
    ensures |NonEmpty(from + Times(x, m))| <= |from| + m
  {
    NonEmptyBoth(from, Times(x, m));
    NonEmptyTimes(x, m);
    NonEmptyIs(from);
    forall y ensures multiset(Times(x, m))[y] == if y == x then m else 0 {
      TimesCounts(x, m, y);
    }
  }

  lemma CompiledKeys(from: seq<Str>, to: seq<Str>)
    requires |from| == |to|
    ensures Compiled(CompileOf(from, to)) && multiset(Keys(CompileOf(from, to).v)) == multiset(NonEmpty(from))
  {
    CompiledIs(from, to);
  }

  lemma DistinctIsHarmless(from: seq<Str>)
    requires DistinctFrom(from)
    ensures Harmless(multiset(NonEmpty(from)))
  {
    forall x ensures multiset(NonEmpty(from))[x] <= 1 {
      DistinctCounts(from, x);
    }
  }

  /** Pairwise different strings are replaced leftmost-longest, in every text. */
  lemma DistinctKeysReplace(from: seq<Str>, to: seq<Str>, t: Str)
    requires |from| == |to| && DistinctFrom(from)
    ensures Compiled(CompileOf(from, to)) && Rewritten(CompileOf(from, to), t) == Replaced(from, to, t)
  {
    DistinctIsHarmless(from);
    RewrittenIsReplaced(from, to, t);
  }

  lemma RepeatedHarmless(from: seq<Str>, i: nat, m: nat)
    requires DistinctFrom(from) && i < |from| && from[i] != []
    requires forall k :: 0 <= k < |from| && from[k] != [] ==> Unrelated(from[k], from[i])
    ensures Harmless(multiset(NonEmpty(from + Times(from[i], m))))
  {
    RepeatedCounts(from, from[i], m);
    var ks := multiset(NonEmpty(from + Times(from[i], m)));
    NonEmptyIs(from);
    hide NonEmpty;
    forall x, y | x in ks && y in ks && x < y ensures ks[x] == 1 && ks[y] == 1 {
      assert x in NonEmpty(from) && y in NonEmpty(from);
      DistinctCounts(from, x);
      DistinctCounts(from, y);
    }
  }

  /** A repeated string that neither begins another one nor is begun by one does no harm. */
  lemma RepeatingIsSafe(from: seq<Str>, to: seq<Str>, i: nat, m: nat)
    requires |from| == |to| && DistinctFrom(from) && i < |from| && from[i] != []
    requires forall k :: 0 <= k < |from| && from[k] != [] ==> Unrelated(from[k], from[i])
    ensures SearchesRight(from + Times(from[i], m), to + Times(to[i], m))
  {
    var f, g := from + Times(from[i], m), to + Times(to[i], m);
    CompiledKeys(f, g);
    RepeatedHarmless(from, i, m);
    var ctx := CompileOf(f, g);
    hide CompileOf, Compiled, LookupOf, LongestIn, Harmless, NonEmpty;
    forall t | t != [] ensures LongestIn(Keys(ctx.v), 0, |ctx.v|, t, LookupOf(ctx, t)) {
      LookupIsLongest(ctx, t);
    }
  }

  /** The range searched for a text contains every key with the same first character. */
  lemma RangeOf(ctx: Context, t: Str, f: nat, n: nat) returns (lo: nat, hi: nat)
    requires Compiled(ctx) && t != [] && n > 0 && f + n <= |ctx.v|
    requires forall i :: f <= i < f + n ==> ctx.v[i].ind != [] && ctx.v[i].ind[0] == t[0]
    ensures lo <= f && f + n <= hi <= |ctx.v|
    ensures LookupOf(ctx, t) == Search(t, Keys(ctx.v), ctx.prefix, ctx.isPrefix, Go(lo, hi, -1, -1))
  {
    lo := if IsChar(t[0]) then ctx.start[t[0]] else ctx.otherStart;
    hi := if IsChar(t[0]) then ctx.end[t[0]] else |ctx.v|;
    assert Found(ctx.v[f].ind[0], f, ctx.start, ctx.end, ctx.otherStart);
    assert Found(ctx.v[f + n - 1].ind[0], f + n - 1, ctx.start, ctx.end, ctx.otherStart);
  }

  /** Many copies fill the middle of every range around them. */
  lemma MiddleIsCopy(f: nat, n: nat, lo: nat, hi: nat, total: nat, others: nat)
    requires lo <= f && f + n <= hi <= total && f <= others && total == n + others && n >= others + 3
    ensures f < (lo + hi) / 2 < f + n - 1
  {
  }

  /** A key that x begins is missed: the search stops at a copy of x. */
  lemma MissesLonger(ctx: Context, x: Str, w: Str, f: nat, n: nat)
    requires Compiled(ctx) && x != [] && x < w && w in Keys(ctx.v)
    requires f + n <= |ctx.v| && n >= |ctx.v| - n + 3
    requires forall i :: 0 <= i < |ctx.v| ==> (Keys(ctx.v)[i] == x <==> f <= i < f + n)
    ensures !LongestIn(Keys(ctx.v), 0, |ctx.v|, w, LookupOf(ctx, w))
  {
    var keys := Keys(ctx.v);
    assert forall i :: f <= i < f + n ==> keys[i] == x == ctx.v[i].ind;
    assert x[0] == w[0];
    var lo, hi := RangeOf(ctx, w, f, n);
    MiddleIsCopy(f, n, lo, hi, |ctx.v|, |ctx.v| - n);
    StopsTooEarly(keys, ctx.isPrefix, w, lo, hi);
    var k :| 0 <= k < |keys| && keys[k] == w;
  }

  /** A character greater than all in the keys. */
  function GreaterChar(keys: seq<Str>): (z: int)
    ensures forall i, j :: 0 <= i < |keys| && 0 <= j < |keys[i]| ==> keys[i][j] < z
  {
    if keys == [] then 0
    else
      var front := GreaterChar(keys[..|keys| - 1]);
      var last := GreaterThanAll(keys[|keys| - 1]);
      if front < last then last else front
  }

  function GreaterThanAll(s: Str): (z: int)
    ensures forall j :: 0 <= j < |s| ==> s[j] < z
  {
    if s == [] then 0
    else
      var front := GreaterThanAll(s[..|s| - 1]);
      if front <= s[|s| - 1] then s[|s| - 1] + 1 else front
  }

  lemma NoKeyReaches(keys: seq<Str>, r: nat, p: Str)
    requires r < |keys| && keys[r] <= p + [GreaterChar(keys)]
    ensures |keys[r]| <= |p|
  {
    assert forall j :: 0 <= j < |keys[r]| ==>
             keys[r][j] < GreaterChar(keys) && keys[r][j] == (p + [GreaterChar(keys)])[j];
    hide GreaterChar;
  }

  /** Where x is inside t's way: p begins it, and t goes on with a greater character. */
  lemma TextAbove(p: Str, x: Str, z: int)
    requires p < x && x[|p|] < z
    ensures Less(x, p + [z]) && !(x <= p + [z])
  {
    var t := p + [z];
    assert x[..|p|] == p == t[..|p|];
    CommonUnique(x, t, |p|);
    LessAtCommon(x, t);
  }

  /** A key that begins x is missed: the search goes on above a copy of x that has no parent. */
  lemma MissesShorter(ctx: Context, p: Str, x: Str, f: nat, n: nat)
    requires Compiled(ctx) && p != [] && p < x && p in Keys(ctx.v)
    requires f + n <= |ctx.v| && n >= |ctx.v| - n + 3
    requires forall i :: 0 <= i < |ctx.v| ==> (Keys(ctx.v)[i] == x <==> f <= i < f + n)
    ensures var t := p + [GreaterChar(Keys(ctx.v))]; !LongestIn(Keys(ctx.v), 0, |ctx.v|, t, LookupOf(ctx, t))
  {
    var keys := Keys(ctx.v);
    var z := GreaterChar(keys);
    var t := p + [z];
    assert forall i :: f <= i < f + n ==> keys[i] == x == ctx.v[i].ind;
    assert x[0] == p[0] == t[0];
    var lo, hi := RangeOf(ctx, t, f, n);
    MiddleIsCopy(f, n, lo, hi, |ctx.v|, |ctx.v| - n);
    assert keys[f] == x && x[|p|] < z;
    TextAbove(p, x, z);
    LosesParent(keys, ctx.isPrefix, t, lo, hi);
    hide Search, Links, Compiled, GreaterChar;
    NotFromThere(keys, p, x, f, LookupOf(ctx, t));
  }

  /** No key from a copy of x on is the longest one to begin that text. */
  lemma NotFromThere(keys: seq<Str>, p: Str, x: Str, f: nat, r: int)
    requires Ordered(keys) && f < |keys| && keys[f] == x && p < x && p in keys
    requires r == -1 || f <= r < |keys|
    ensures !LongestIn(keys, 0, |keys|, p + [GreaterChar(keys)], r)
  {
    var t := p + [GreaterChar(keys)];
    var k :| 0 <= k < |keys| && keys[k] == p;
    assert keys[k] <= t;
    if r >= 0 && keys[r] <= t && |p| <= |keys[r]| {
      NoKeyReaches(keys, r, p);
      assert keys[r] == p;
      PrefixIndex(keys, r, f);
    }
  }

  /** Where the copies of x stand among the compiled keys. */
  lemma CopiesStand(from: seq<Str>, ctx: Context, x: Str, m: nat) returns (f: nat, n: nat)
    requires x != [] && x in from && Compiled(ctx)
    requires multiset(Keys(ctx.v)) == multiset(NonEmpty(from + Times(x, m)))
    ensures f + n <= |ctx.v| <= |from| + m && n > m
    ensures forall i :: 0 <= i < |ctx.v| ==> (Keys(ctx.v)[i] == x <==> f <= i < f + n)
    ensures forall y :: y in from && y != [] ==> y in Keys(ctx.v)
  {
    var keys, ks := Keys(ctx.v), NonEmpty(from + Times(x, m));
    RepeatedCounts(from, x, m);
    NonEmptyIs(from);
    assert |multiset(keys)| == |keys| && |multiset(ks)| == |ks|;
    CompiledOrdered(ctx);
    hide NonEmpty, Times, Compiled, Keys, Ordered;
    forall y | y in from && y != [] ensures y in keys {
      assert y in NonEmpty(from);
      assert y in multiset(keys);
    }
    assert x in NonEmpty(from);
    f, n := Block(keys, x);
  }

  lemma CompiledOrdered(ctx: Context)
    requires Compiled(ctx)
    ensures Ordered(Keys(ctx.v))
  {
  }

  /** With enough copies of x, a string that x begins, or that begins x, is missed in some text. */
  lemma ManyCopiesHarm(from: seq<Str>, x: Str, y: Str, m: nat, f: seq<Str>, g: seq<Str>)
    requires x in from && y in from && x != [] && y != [] && !Unrelated(y, x)
    requires m >= |from| + 4 && f == from + Times(x, m) && |f| == |g|
    ensures !SearchesRight(f, g)
  {
    CompiledKeys(f, g);
    var ctx := CompileOf(f, g);
    hide CompileOf, Compiled, LookupOf, LongestIn, Times, NonEmpty, SearchesRight, Unrelated, Keys;
    var start, n := CopiesStand(from, ctx, x, m);
    var text := WrongText(ctx, x, y, start, n);
    WrongOnce(f, g, text);
  }

  lemma WrongOnce(from: seq<Str>, to: seq<Str>, t: Str)
    requires |from| == |to| && t != [] && Compiled(CompileOf(from, to))
    requires var ctx := CompileOf(from, to); !LongestIn(Keys(ctx.v), 0, |ctx.v|, t, LookupOf(ctx, t))
    ensures !SearchesRight(from, to)
  {
    hide CompileOf, Compiled, LookupOf, LongestIn;
  }

  lemma WrongText(ctx: Context, x: Str, y: Str, f: nat, n: nat) returns (t: Str)
    requires Compiled(ctx) && x != [] && y != [] && !Unrelated(y, x) && y in Keys(ctx.v)
    requires f + n <= |ctx.v| && n >= |ctx.v| - n + 3
    requires forall i :: 0 <= i < |ctx.v| ==> (Keys(ctx.v)[i] == x <==> f <= i < f + n)
    ensures t != [] && !LongestIn(Keys(ctx.v), 0, |ctx.v|, t, LookupOf(ctx, t))
  {
    hide Compiled, LookupOf, LongestIn;
    if x < y {
      t := y;
      MissesLonger(ctx, x, y, f, n);
    } else {
      t := y + [GreaterChar(Keys(ctx.v))];
      MissesShorter(ctx, y, x, f, n);
    }
  }

  /** Among different strings, one of them may be repeated any number of times exactly when no other begins
      it or is begun by it. */
  lemma RepeatingIsSafeExactly(from: seq<Str>, to: seq<Str>, i: nat)
    requires |from| == |to| && DistinctFrom(from) && i < |from| && from[i] != []
    ensures (forall k :: 0 <= k < |from| && from[k] != [] ==> Unrelated(from[k], from[i]))
      <==> forall m: nat :: SearchesRight(from + Times(from[i], m), to + Times(to[i], m))
  {
    if k :| 0 <= k < |from| && from[k] != [] && !Unrelated(from[k], from[i]) {
      var m: nat := |from| + 4;
      ManyCopiesHarm(from, from[i], from[k], m, from + Times(from[i], m), to + Times(to[i], m));
    } else {
      forall m: nat ensures SearchesRight(from + Times(from[i], m), to + Times(to[i], m)) {
        RepeatingIsSafe(from, to, i, m);
      }
    }
  }
}
